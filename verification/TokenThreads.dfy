/**
 The token store under concurrent callers. Authenticating a request is one
 atomic step of its thread, and so is each lock section of `resolve`,
 `issue_access`, `rotate` and `commit_rotation` and each system call of
 `write_token`; any other thread, the clock or a restart may come in between.
 */
module TokenThreads {
  import opened Common
  import opened TokenStore
  import TokenTraces

  type Tid = nat

  /** The requests `require_primary` guards. */
  datatype Request = Mint | Revoke | Rotate | Confirm

  /** Where a thread stands between its steps; an allowed request has not acted yet. */
  datatype Pc =
    | Idle
    | Resolving(presented: Token)
    | Minting(token: Token, entry: AccessEntry)
    | Allowed(request: Request, bearer: Option<Token>)
    | Revoked(newToken: Token, grace: nat, count: nat)
    | Opened(newToken: Token, grace: nat, count: nat, fd: nat)
    | Written(newToken: Token, grace: nat, count: nat, fd: nat)
    | Persisted(newToken: Token, grace: nat, count: nat)

  /**
   The token file's directory: contents by inode, the inode `api.token.tmp`
   names, if there is one, and the inode `api.token` names. All rotations share
   the one temporary name.
   */
  datatype Directory = Directory(files: seq<Token>, temp: Option<nat>, name: nat)
  {
    predicate Valid() {
      name < |files| && (temp.Some? ==> temp.value < |files| && temp.value != name)
    }
  }

  type Disk = d: Directory | d.Valid() witness Directory([[]], None, 0)

  /** What a restart reads. */
  function Stored(disk: Disk): Token {
    disk.files[disk.name]
  }

  /** `open` with create and truncate: the file the name leads to is emptied, or a new one appears. */
  function OpenTemporary(disk: Disk): Disk {
    if disk.temp.Some? then disk.(files := disk.files[disk.temp.value := []])
    else disk.(files := disk.files + [[]], temp := Some(|disk.files|))
  }

  /** `write_all` through an open descriptor, wherever its file is by now. All drawn tokens have one length. */
  function WriteThrough(disk: Disk, fd: nat, token: Token): Disk
    requires fd < |disk.files|
  {
    disk.(files := disk.files[fd := token])
  }

  /** `rename` moves whatever file the temporary name leads to. */
  function RenameTemporary(disk: Disk): Disk {
    if disk.temp.Some? then disk.(name := disk.temp.value, temp := None) else disk
  }

  /** The history of the store, kept beside it for the statements below. */
  datatype Note =
    | Inserted(token: Token, entry: AccessEntry, victims: set<Digest>)
    | Cleared
    | Restarted

  datatype World = World(
    now: Time,
    primary: PrimaryState,
    access: AccessMap,
    disk: Disk,
    pcs: map<Tid, Pc>,
    mintDraws: set<Token>,
    primaryDraws: set<Token>,
    log: seq<Note>)
  {
    function At(t: Tid): Pc {
      if t in pcs then pcs[t] else Idle
    }

    function Move(t: Tid, pc: Pc): World {
      this.(pcs := pcs[t := pc])
    }

    function Note(n: Note): World {
      this.(log := log + [n])
    }

    function Resolve(presented: Token): Option<Resolved> {
      ResolveAt(primary, access, presented, now)
    }
  }

  datatype Action =
    | Tick(to: Time)
    | BeginResolve(t: Tid, presented: Token)
    | EndResolve(t: Tid)
    | BeginMint(t: Tid, token: Token, ttl: Option<nat>, labelText: string)
    | EndMint(t: Tid, victims: set<Digest>)
    | RevokeAccess(t: Tid)
    | BeginRotation(t: Tid, token: Token, grace: nat)
    | OpenTemp(t: Tid)
    | WriteTemp(t: Tid)
    | RenameTemp(t: Tid)
    | GiveUp(t: Tid)
    | Swap(t: Tid)
    | Authorize(t: Tid, request: Request, bearer: Option<Token>)
    | Commit(t: Tid)
    | Restart

  /** An empty token file reads as the empty string, which may thus become a primary though it is never drawn. */
  function Init(token: Token, now: Time): World {
    World(now, PrimaryState(token, None), map[], Directory([token], None, 0), map[], {}, {token, []}, [])
  }

  /** `random_hex` draws a value never seen before. */
  predicate Unseen(w: World, token: Token) {
    token !in w.mintDraws && token !in w.primaryDraws
  }

  ghost predicate Enabled(w: World, a: Action) {
    match a
    case Tick(to) => w.now <= to
    case BeginResolve(t, _) => w.At(t).Idle?
    case EndResolve(t) => w.At(t).Resolving?
    case BeginMint(t, token, _, _) => MayAct(w, t, Mint) && Unseen(w, token)
    case EndMint(t, victims) => w.At(t).Minting? && Evictable(Sweep(w.access, w.now), victims)
    case RevokeAccess(t) => MayAct(w, t, Revoke)
    case BeginRotation(t, token, _) => MayAct(w, t, Rotate) && Unseen(w, token)
    case OpenTemp(t) => w.At(t).Revoked?
    case WriteTemp(t) => w.At(t).Opened? && w.At(t).fd < |w.disk.files|
    case RenameTemp(t) => w.At(t).Written?
    case GiveUp(t) => w.At(t).Revoked? || w.At(t).Opened? || w.At(t).Written?
    case Swap(t) => w.At(t).Persisted?
    case Authorize(t, _, _) => w.At(t).Idle?
    case Commit(t) => MayAct(w, t, Confirm)
    case Restart => true
  }

  /** The handler goes by what authentication found, however long ago. */
  predicate MayAct(w: World, t: Tid, request: Request) {
    w.At(t).Allowed? && w.At(t).request == request
  }

  /**
   The guards on what authentication finds: `require_primary`, and for a
   confirmation `reject_grace`. Root on the socket needs no token.
   */
  predicate MayDo(w: World, request: Request, bearer: Option<Token>) {
    var resolved :=
      if bearer.Some? then MatchPrimary(w.primary, bearer.value, w.now) else Some(Resolved(LocalPeer, false, None));
    RequirePrimary(resolved, true).Ok? && (request == Confirm ==> RejectGrace(resolved).Ok?)
  }

  ghost function Apply(w: World, a: Action): World
    requires Enabled(w, a)
  {
    match a
    case Tick(to) => w.(now := to)
    case BeginResolve(t, presented) =>
      if MatchPrimary(w.primary, presented, w.now).Some? then w else w.Move(t, Resolving(presented))
    case EndResolve(t) => w.(access := Sweep(w.access, w.now)).Move(t, Idle)
    case BeginMint(t, token, ttl, labelText) =>
      var expires := w.now + ClampTtl(ttl);
      var entry := AccessEntry(expires, UnixSeconds(expires), labelText);
      w.(mintDraws := w.mintDraws + {token}).Move(t, Minting(token, entry))
    case EndMint(t, victims) =>
      var m := w.At(t);
      w.(access := TokenStore.Inserted(Sweep(w.access, w.now), victims, m.token, m.entry))
       .Note(Inserted(m.token, m.entry, victims)).Move(t, Idle)
    case RevokeAccess(t) => w.(access := map[]).Note(Cleared).Move(t, Idle)
    case BeginRotation(t, token, grace) =>
      w.(access := map[], primaryDraws := w.primaryDraws + {token})
       .Note(Cleared).Move(t, Revoked(token, grace, |Sweep(w.access, w.now)|))
    case OpenTemp(t) =>
      var r := w.At(t);
      var disk := OpenTemporary(w.disk);
      w.(disk := disk).Move(t, Opened(r.newToken, r.grace, r.count, disk.temp.value))
    case WriteTemp(t) =>
      var r := w.At(t);
      w.(disk := WriteThrough(w.disk, r.fd, r.newToken)).Move(t, Written(r.newToken, r.grace, r.count, r.fd))
    case RenameTemp(t) =>
      var r := w.At(t);
      if w.disk.temp == None then w.Move(t, Idle)
      else w.(disk := RenameTemporary(w.disk)).Move(t, Persisted(r.newToken, r.grace, r.count))
    case GiveUp(t) => w.Move(t, Idle)
    case Swap(t) =>
      var r := w.At(t);
      w.(primary := Swapped(w.primary, r.newToken, r.grace, w.now)).Move(t, Idle)
    case Authorize(t, request, bearer) => if MayDo(w, request, bearer) then w.Move(t, Allowed(request, bearer)) else w
    case Commit(t) => w.(primary := w.primary.(previous := None)).Move(t, Idle)
    case Restart => w.(primary := PrimaryState(Stored(w.disk), None), access := map[], pcs := map[]).Note(Restarted)
  }

  /** The lock section a step runs, if it takes a lock at all. */
  function SectionOf(w: World, a: Action): Option<TokenTraces.Section> {
    match a
    case BeginResolve(_, presented) => Some(TokenTraces.Match(presented))
    case EndResolve(t) => if w.At(t).Resolving? then Some(TokenTraces.Find(w.At(t).presented)) else None
    case EndMint(t, victims) =>
      if w.At(t).Minting? then Some(TokenTraces.Insert(w.At(t).token, w.At(t).entry, victims)) else None
    case RevokeAccess(_) => Some(TokenTraces.Revoke)
    case BeginRotation(_, _, _) => Some(TokenTraces.Revoke)
    case Swap(t) => if w.At(t).Persisted? then Some(TokenTraces.Swap(w.At(t).newToken, w.At(t).grace)) else None
    case Authorize(_, _, bearer) => if bearer.Some? then Some(TokenTraces.Match(bearer.value)) else None
    case Commit(_) => Some(TokenTraces.Commit)
    case _ => None
  }

  /**
   Short of a restart, threads touch the store through lock sections only, so what
   holds of every section trace holds here.
   */
  lemma StepsAreSections(w: World, a: Action)
    requires Enabled(w, a) && !a.Restart?
    ensures var s := TokenTraces.Lazy(w.primary, w.access);
      var s' := TokenTraces.Lazy(Apply(w, a).primary, Apply(w, a).access);
      match SectionOf(w, a)
      case None => s' == s
      case Some(section) => TokenTraces.LazyEnabled(s, w.now, section) && s' == TokenTraces.LazyNext(s, w.now, section)
  {
  }

  ghost predicate IsRun(ws: seq<World>, acts: seq<Action>) {
    && |ws| == |acts| + 1
    && ws[0] == Init(ws[0].primary.current, ws[0].now)
    && forall i | 0 <= i < |acts| :: StepAt(ws, acts, i)
  }

  ghost predicate StepAt(ws: seq<World>, acts: seq<Action>, i: int)
    requires |ws| == |acts| + 1 && 0 <= i < |acts|
  {
    Enabled(ws[i], acts[i]) && ws[i + 1] == Apply(ws[i], acts[i])
  }

  // ----- what every step keeps

  /** Access tokens and primaries are drawn apart. */
  ghost predicate RolesApart(w: World) {
    && w.mintDraws !! w.primaryDraws
    && (forall d | d in w.access :: d.preimage in w.mintDraws)
    && PrimariesDrawn(w)
    && (forall t | t in w.pcs && w.pcs[t].Minting? :: w.pcs[t].token in w.mintDraws)
  }

  ghost predicate PrimariesDrawn(w: World) {
    && [] in w.primaryDraws && w.primary.current in w.primaryDraws
    && (forall i | 0 <= i < |w.disk.files| :: w.disk.files[i] in w.primaryDraws)
    && (w.primary.previous.Some? ==> w.primary.previous.value.token in w.primaryDraws)
    && (forall t | t in w.pcs && Pending(w.pcs[t]).Some? :: Pending(w.pcs[t]).value in w.primaryDraws)
  }

  /** The token a rotation in progress is about to install. */
  function Pending(pc: Pc): Option<Token> {
    match pc
    case Revoked(token, _, _) => Some(token)
    case Opened(token, _, _, _) => Some(token)
    case Written(token, _, _, _) => Some(token)
    case Persisted(token, _, _) => Some(token)
    case _ => None
  }

  /** A drawn access token enters the map at most once. */
  ghost predicate InsertedOnce(w: World) {
    && (forall m | 0 <= m < |w.log| && w.log[m].Inserted? :: w.log[m].token in w.mintDraws)
    && LoggedApart(w.log)
    && (forall t | t in w.pcs && w.pcs[t].Minting? :: NotLogged(w.log, w.pcs[t].token))
    && PendingApart(w.pcs)
  }

  ghost predicate NotLogged(log: seq<Note>, token: Token) {
    forall m | 0 <= m < |log| && log[m].Inserted? :: log[m].token != token
  }

  ghost predicate LoggedApart(log: seq<Note>) {
    forall m, n | 0 <= m < n < |log| && log[m].Inserted? && log[n].Inserted? :: log[m].token != log[n].token
  }

  ghost predicate PendingApart(pcs: map<Tid, Pc>) {
    forall t, u | t in pcs && u in pcs && t != u && pcs[t].Minting? && pcs[u].Minting? :: pcs[t].token != pcs[u].token
  }

  /** The history's verdict on a token: its last insertion, unless a revocation, restart or eviction came after. */
  function Standing(log: seq<Note>, token: Token): Option<AccessEntry>
    decreases |log|
  {
    if log == [] then None
    else
      var last := log[|log| - 1];
      match last
      case Cleared => None
      case Restarted => None
      case Inserted(inserted, entry, victims) =>
        if inserted == token then Some(entry)
        else if Sha256(token) in victims then None
        else Standing(log[..|log| - 1], token)
  }

  /** What the map holds stands, and what stands and has not expired is in the map. */
  ghost predicate Explains(log: seq<Note>, access: AccessMap, now: Time) {
    && (forall d | d in access :: Standing(log, d.preimage) == Some(access[d]))
    && (forall p :: Standing(log, p).Some? && Standing(log, p).value.expires > now ==> Sha256(p) in access)
  }

  ghost predicate LogExplains(w: World) {
    Explains(w.log, w.access, w.now)
  }

  lemma StandingAfter(log: seq<Note>, n: Note, token: Token)
    ensures Standing(log + [n], token)
      == match n
         case Cleared => None
         case Restarted => None
         case Inserted(inserted, entry, victims) =>
           if inserted == token then Some(entry) else if Sha256(token) in victims then None else Standing(log, token)
  {
    assert (log + [n])[..|log|] == log;
  }

  lemma StepRolesApart(w: World, a: Action)
    requires Enabled(w, a) && RolesApart(w)
    ensures RolesApart(Apply(w, a))
  {
    StepPrimariesDrawn(w, a);
  }

  lemma StepPrimariesDrawn(w: World, a: Action)
    requires Enabled(w, a) && PrimariesDrawn(w)
    ensures PrimariesDrawn(Apply(w, a))
  {
    StepFilesDrawn(w, a);
  }

  lemma StepFilesDrawn(w: World, a: Action)
    requires Enabled(w, a) && PrimariesDrawn(w)
    ensures var w' := Apply(w, a);
      w.primaryDraws <= w'.primaryDraws && forall i | 0 <= i < |w'.disk.files| :: w'.disk.files[i] in w'.primaryDraws
  {
    if a.WriteTemp? {
      assert Pending(w.At(a.t)) == Some(w.At(a.t).newToken);
    }
  }

  lemma StepInsertedOnce(w: World, a: Action)
    requires Enabled(w, a) && RolesApart(w) && InsertedOnce(w)
    ensures InsertedOnce(Apply(w, a))
  {
    StepLoggedApart(w, a);
    StepPendingUnlogged(w, a);
    StepPendingApart(w, a);
  }

  lemma StepLoggedApart(w: World, a: Action)
    requires Enabled(w, a) && InsertedOnce(w)
    ensures LoggedApart(Apply(w, a).log)
  {
  }

  lemma StepPendingUnlogged(w: World, a: Action)
    requires Enabled(w, a) && RolesApart(w) && InsertedOnce(w)
    ensures var w' := Apply(w, a);
      && (forall m | 0 <= m < |w'.log| && w'.log[m].Inserted? :: w'.log[m].token in w'.mintDraws)
      && (forall t | t in w'.pcs && w'.pcs[t].Minting? :: NotLogged(w'.log, w'.pcs[t].token))
  {
  }

  lemma StepPendingApart(w: World, a: Action)
    requires Enabled(w, a) && RolesApart(w) && InsertedOnce(w)
    ensures PendingApart(Apply(w, a).pcs)
  {
  }

  lemma ExplainsSwept(log: seq<Note>, access: AccessMap, now: Time)
    requires Explains(log, access, now)
    ensures Explains(log, Sweep(access, now), now)
  {
    assert forall p :: Sha256(p).preimage == p;
  }

  lemma ExplainsEmptied(log: seq<Note>, now: Time, n: Note)
    requires !n.Inserted?
    ensures Explains(log + [n], map[], now)
  {
    forall p
      ensures Standing(log + [n], p) == None
    {
      StandingAfter(log, n, p);
    }
  }

  lemma ExplainsInserted(log: seq<Note>, live: AccessMap, now: Time, token: Token, entry: AccessEntry,
      victims: set<Digest>)
    requires Explains(log, live, now)
    ensures Explains(log + [Inserted(token, entry, victims)], TokenStore.Inserted(live, victims, token, entry), now)
  {
    var n := Inserted(token, entry, victims);
    forall p
      ensures Standing(log + [n], p)
        == if token == p then Some(entry) else if Sha256(p) in victims then None else Standing(log, p)
    {
      StandingAfter(log, n, p);
    }
    assert forall d: Digest :: Sha256(d.preimage) == d;
  }

  lemma StepLogExplains(w: World, a: Action)
    requires Enabled(w, a) && LogExplains(w)
    ensures LogExplains(Apply(w, a))
  {
    match a
    case EndResolve(_) => ExplainsSwept(w.log, w.access, w.now);
    case EndMint(t, victims) =>
      ExplainsSwept(w.log, w.access, w.now);
      ExplainsInserted(w.log, Sweep(w.access, w.now), w.now, w.At(t).token, w.At(t).entry, victims);
    case RevokeAccess(_) => ExplainsEmptied(w.log, w.now, Cleared);
    case BeginRotation(_, _, _) => ExplainsEmptied(w.log, w.now, Cleared);
    case Restart => ExplainsEmptied(w.log, w.now, Note.Restarted);
    case _ =>
  }

  lemma StepKeepsCap(w: World, a: Action)
    requires Enabled(w, a) && |w.access| <= MAX_LIVE_ACCESS
    ensures |Apply(w, a).access| <= MAX_LIVE_ACCESS
  {
    SweepShrinks(w.access, w.now);
    if a.EndMint? {
      MintKeepsCap(w.access, w.now, a.victims, w.At(a.t).token, w.At(a.t).entry);
    }
  }

  ghost predicate Inv(w: World) {
    RolesApart(w) && InsertedOnce(w) && LogExplains(w) && |w.access| <= 64
  }

  lemma {:induction false} RunsKeepInv(ws: seq<World>, acts: seq<Action>, k: nat)
    requires IsRun(ws, acts) && k < |ws|
    ensures Inv(ws[k])
  {
    if k > 0 {
      RunsKeepInv(ws, acts, k - 1);
      assert StepAt(ws, acts, k - 1);
      StepRolesApart(ws[k - 1], acts[k - 1]);
      StepInsertedOnce(ws[k - 1], acts[k - 1]);
      StepLogExplains(ws[k - 1], acts[k - 1]);
      StepKeepsCap(ws[k - 1], acts[k - 1]);
    }
  }

  ghost predicate Grows(w: World, w': World) {
    w.log <= w'.log && w.now <= w'.now && w.mintDraws <= w'.mintDraws && w.primaryDraws <= w'.primaryDraws
  }

  lemma StepGrows(w: World, a: Action)
    requires Enabled(w, a)
    ensures Grows(w, Apply(w, a))
  {
  }

  lemma RunGrowsAt(ws: seq<World>, acts: seq<Action>, k: nat)
    requires IsRun(ws, acts) && k < |acts|
    ensures Grows(ws[k], ws[k + 1])
  {
    assert StepAt(ws, acts, k);
    StepGrows(ws[k], acts[k]);
  }

  lemma GrowsOn(a: World, b: World, c: World)
    requires Grows(a, b) && Grows(b, c)
    ensures Grows(a, c)
  {
  }

  /** History only grows, draws are never forgotten and the clock never runs back. */
  lemma {:induction false} RunsGrow(ws: seq<World>, acts: seq<Action>, i: nat, k: nat)
    requires IsRun(ws, acts) && i <= k < |ws|
    ensures Grows(ws[i], ws[k])
    decreases k - i
  {
    if i < k {
      RunsGrow(ws, acts, i, k - 1);
      RunGrowsAt(ws, acts, k - 1);
      GrowsOn(ws[i], ws[k - 1], ws[k]);
    }
  }

  // ----- resolve

  /**
   The two-lock `resolve` is linearizable: whatever ran between its sections,
   its answer is that of an atomic resolve at its first or at its second one.
   */
  lemma Linearizable(ws: seq<World>, acts: seq<Action>, i: nat, j: nat, t: Tid, presented: Token)
    requires IsRun(ws, acts) && i < j < |acts|
    requires acts[i] == BeginResolve(t, presented) && ws[i + 1].At(t) == Resolving(presented)
    requires acts[j] == EndResolve(t) && ws[j].At(t) == Resolving(presented)
    ensures var answer := Lookup(ws[j].access, presented, ws[j].now);
      answer == ws[i].Resolve(presented) || answer == ws[j].Resolve(presented)
  {
    RunsKeepInv(ws, acts, i);
    RunsKeepInv(ws, acts, j);
    RunsGrow(ws, acts, i, j);
    assert MatchPrimary(ws[i].primary, presented, ws[i].now) == None by {
      assert StepAt(ws, acts, i);
    }
    assert Sha256(presented).preimage == presented;
    assert MatchPrimary(ws[j].primary, presented, ws[j].now).Some? ==> presented in ws[j].primaryDraws;
  }

  /** Note `n` is the insertion a token still rests on. */
  ghost predicate RestsOn(log: seq<Note>, n: int, token: Token, entry: AccessEntry) {
    && 0 <= n < |log| && log[n].Inserted? && log[n].token == token && log[n].entry == entry
    && forall m | n < m < |log| ::
         && !log[m].Cleared? && !log[m].Restarted?
         && (log[m].Inserted? ==> log[m].token != token && Sha256(token) !in log[m].victims)
  }

  lemma {:induction false} StandingMeans(log: seq<Note>, token: Token, entry: AccessEntry)
    ensures Standing(log, token) == Some(entry) <==> exists n :: RestsOn(log, n, token, entry)
    decreases |log|
  {
    if log != [] {
      var k := |log| - 1;
      StandingMeans(log[..k], token, entry);
      assert forall n | 0 <= n < k :: log[..k][n] == log[n];
      if log[k].Inserted? && log[k].token == token {
        assert RestsOn(log, k, token, log[k].entry);
      } else if log[k].Cleared? || log[k].Restarted? || (log[k].Inserted? && Sha256(token) in log[k].victims) {
        assert forall n :: !RestsOn(log, n, token, entry);
      } else {
        assert forall n | 0 <= n < k :: RestsOn(log, n, token, entry) <==> RestsOn(log[..k], n, token, entry);
      }
    }
  }

  /**
   In every interleaving a string passes as an access token exactly when it was
   minted, its lifetime lasts, and no revocation, rotation, restart or eviction
   of it came after its insertion.
   */
  lemma AccessIffRests(ws: seq<World>, acts: seq<Action>, k: nat, token: Token, expiresAt: int)
    requires IsRun(ws, acts) && k < |ws|
    ensures ws[k].Resolve(token) == Some(Resolved(Access, false, Some(expiresAt)))
      <==> exists n, e :: RestsOn(ws[k].log, n, token, e) && e.expires > ws[k].now && e.expiresAt == expiresAt
  {
    RunsKeepInv(ws, acts, k);
    var w := ws[k];
    assert Sha256(token).preimage == token;
    forall e
      ensures Standing(w.log, token) == Some(e) <==> exists n :: RestsOn(w.log, n, token, e)
    {
      StandingMeans(w.log, token, e);
    }
    if exists n, e :: RestsOn(w.log, n, token, e) && e.expires > w.now && e.expiresAt == expiresAt {
      var n, e :| RestsOn(w.log, n, token, e) && e.expires > w.now && e.expiresAt == expiresAt;
      assert Standing(w.log, token) == Some(e);
      assert token in w.mintDraws;
    }
  }

  // ----- how long a minted token lasts

  /** Wherever the token is waiting or was inserted, it is with this entry. */
  ghost predicate MintedAs(w: World, token: Token, entry: AccessEntry) {
    && token in w.mintDraws
    && (forall t | t in w.pcs && w.pcs[t].Minting? && w.pcs[t].token == token :: w.pcs[t].entry == entry)
    && (forall n | 0 <= n < |w.log| && w.log[n].Inserted? && w.log[n].token == token :: w.log[n].entry == entry)
  }

  lemma StepMintedAs(w: World, a: Action, token: Token, entry: AccessEntry)
    requires Enabled(w, a) && MintedAs(w, token, entry)
    ensures MintedAs(Apply(w, a), token, entry)
  {
  }

  lemma {:induction false} MintedOnce(ws: seq<World>, acts: seq<Action>, m: nat, k: nat) returns (entry: AccessEntry)
    requires IsRun(ws, acts) && m < k < |ws| && acts[m].BeginMint?
    ensures MintedAs(ws[k], acts[m].token, entry)
    ensures ws[m].now <= entry.expires && Lasts(acts[m].ttl, entry.expires - ws[m].now)
    ensures entry.expiresAt * 1_000_000_000 <= entry.expires < (entry.expiresAt + 1) * 1_000_000_000
    decreases k
  {
    assert StepAt(ws, acts, k - 1);
    if k == m + 1 {
      RunsKeepInv(ws, acts, m);
      entry := ws[k].At(acts[m].t).entry;
    } else {
      entry := MintedOnce(ws, acts, m, k - 1);
      StepMintedAs(ws[k - 1], acts[k - 1], acts[m].token, entry);
    }
  }

  /**
   A minted token is accepted for as long as was asked for, between a second and
   an hour, ten minutes unless asked, counted from its draw: never from then on,
   and until then whenever its insertion stands.
   */
  lemma AcceptedWhileItLasts(ws: seq<World>, acts: seq<Action>, m: nat, k: nat) returns (life: nat)
    requires IsRun(ws, acts) && m < k < |ws| && acts[m].BeginMint?
    ensures Lasts(acts[m].ttl, life)
    ensures AcceptsAccess(ws[k], acts[m].token) <==>
              ws[k].now < ws[m].now + life && exists n, e :: RestsOn(ws[k].log, n, acts[m].token, e)
  {
    var token := acts[m].token;
    var entry := MintedOnce(ws, acts, m, k);
    life := entry.expires - ws[m].now;
    if AcceptsAccess(ws[k], token) {
      AccessIffRests(ws, acts, k, token, ws[k].Resolve(token).value.expiresAt.value);
    }
    if n, e :| RestsOn(ws[k].log, n, token, e) {
      assert e == entry;
      AccessIffRests(ws, acts, k, token, e.expiresAt);
    }
  }

  // ----- rotate

  /** What resolves as an access token after a rotation's first step was put in the map after that step. */
  lemma {:induction false} MintedSince(ws: seq<World>, acts: seq<Action>, i: nat, k: nat, token: Token)
    requires IsRun(ws, acts) && i < k < |ws|
    requires acts[i].BeginRotation? && Sha256(token) in ws[k].access
    ensures exists m :: i < m < k && acts[m].EndMint? && ws[m].At(acts[m].t).Minting?
                     && ws[m].At(acts[m].t).token == token
    decreases k
  {
    var a := acts[k - 1];
    assert StepAt(ws, acts, k - 1);
    if k - 1 > i {
      if Sha256(token) in ws[k - 1].access {
        MintedSince(ws, acts, i, k - 1, token);
      } else {
        assert a.EndMint? && ws[k - 1].At(a.t).token == token;
      }
    }
  }

  /** A token waiting to be inserted was never in the map. */
  lemma PendingIsNew(ws: seq<World>, acts: seq<Action>, i: nat, m: nat, t: Tid, token: Token)
    requires IsRun(ws, acts) && i <= m < |ws|
    requires ws[m].At(t).Minting? && ws[m].At(t).token == token
    ensures Sha256(token) !in ws[i].access
  {
    RunsGrow(ws, acts, i, m);
    RunsKeepInv(ws, acts, m);
    RunsKeepInv(ws, acts, i);
    forall e
      ensures Standing(ws[i].log, token) != Some(e)
    {
      StandingMeans(ws[i].log, token, e);
      assert forall n | 0 <= n < |ws[i].log| :: ws[i].log[n] == ws[m].log[n];
    }
    assert Sha256(token).preimage == token;
  }

  /**
   A rotation's first step is final: no access token in the map at that step
   ever resolves again, as anything, in any continuation; and whatever does
   resolve as an access token later was inserted after the step.
   */
  lemma RotationIsFinal(ws: seq<World>, acts: seq<Action>, i: nat, k: nat, token: Token)
    requires IsRun(ws, acts) && i < k < |ws| && acts[i].BeginRotation?
    ensures Sha256(token) in ws[i].access ==> ws[k].Resolve(token) == None
    ensures ws[k].Resolve(token).Some? && ws[k].Resolve(token).value.kind == Access ==>
              exists m :: i < m < k && acts[m].EndMint? && ws[m].At(acts[m].t).Minting?
                       && ws[m].At(acts[m].t).token == token
  {
    RunsKeepInv(ws, acts, i);
    RunsKeepInv(ws, acts, k);
    RunsGrow(ws, acts, i, k);
    assert Sha256(token).preimage == token;
    if Sha256(token) in ws[k].access {
      MintedSince(ws, acts, i, k, token);
      var m :| i < m < k && acts[m].EndMint? && ws[m].At(acts[m].t).Minting? && ws[m].At(acts[m].t).token == token;
      PendingIsNew(ws, acts, i, m, acts[m].t, token);
    }
  }

  /** `revoked` counts exactly the strings that would have resolved as access tokens at that step. */
  lemma RevokedCountsResolving(ws: seq<World>, acts: seq<Action>, i: nat)
    requires IsRun(ws, acts) && i < |acts| && acts[i].BeginRotation?
    ensures var live := LiveTokens(ws[i].access, ws[i].now);
      && ws[i + 1].At(acts[i].t) == Revoked(acts[i].token, acts[i].grace, |live|)
      && forall p :: p in live <==> ws[i].Resolve(p).Some? && ws[i].Resolve(p).value.kind == Access
  {
    RunsKeepInv(ws, acts, i);
    CountIsWhatResolves(ws[i].access, ws[i].now);
    assert StepAt(ws, acts, i);
    assert forall p :: Sha256(p).preimage == p;
    forall p
      ensures Lookup(ws[i].access, p, ws[i].now).Some? <==>
                ws[i].Resolve(p).Some? && ws[i].Resolve(p).value.kind == Access
    {
      if Lookup(ws[i].access, p, ws[i].now).Some? {
        assert Sha256(p) in ws[i].access;
        assert MatchPrimary(ws[i].primary, p, ws[i].now) == None;
      }
    }
  }

  /** A request of the current primary and the first step it leads to. */
  lemma RequestRotation(ws0: seq<World>, acts0: seq<Action>, t: Tid, bearer: Token, token: Token, grace: nat)
    returns (ws: seq<World>, acts: seq<Action>)
    requires IsRun(ws0, acts0)
    requires var w := ws0[|acts0|];
      w.At(t) == Idle && bearer == w.primary.current && Unseen(w, token) && w.access == map[]
    ensures IsRun(ws, acts) && ws0 <= ws
    ensures acts == acts0 + [Authorize(t, Rotate, Some(bearer))] + [BeginRotation(t, token, grace)]
    ensures var w, w' := ws0[|acts0|], ws[|acts|];
      && w'.access == map[] && w'.now == w.now && w'.primary == w.primary && w'.disk == w.disk
      && w'.mintDraws == w.mintDraws && w'.primaryDraws == w.primaryDraws + {token}
      && w'.At(t) == Revoked(token, grace, 0) && forall u | u != t :: w'.At(u) == w.At(u)
  {
    ws, acts := AllowNow(ws0, acts0, t, Rotate, bearer);
    var w1 := ws[|acts|];
    assert Sweep(map[], w1.now) == map[];
    var w2 := Apply(w1, BeginRotation(t, token, grace));
    OneStep(ws, acts, BeginRotation(t, token, grace), w2);
    ws, acts := ws + [w2], acts + [BeginRotation(t, token, grace)];
  }

  lemma AllowNow(ws0: seq<World>, acts0: seq<Action>, t: Tid, request: Request, bearer: Token)
    returns (ws: seq<World>, acts: seq<Action>)
    requires IsRun(ws0, acts0)
    requires var w := ws0[|acts0|]; w.At(t) == Idle && bearer == w.primary.current
    ensures IsRun(ws, acts) && ws0 <= ws && acts == acts0 + [Authorize(t, request, Some(bearer))]
    ensures ws[|acts|] == ws0[|acts0|].Move(t, Allowed(request, Some(bearer)))
  {
    var w := Apply(ws0[|acts0|], Authorize(t, request, Some(bearer)));
    OneStep(ws0, acts0, Authorize(t, request, Some(bearer)), w);
    ws, acts := ws0 + [w], acts0 + [Authorize(t, request, Some(bearer))];
  }

  /** What `issue_access` inserts for a caller that names no lifetime. */
  function DefaultEntry(now: Time): AccessEntry {
    AccessEntry(now + ClampTtl(None), UnixSeconds(now + ClampTtl(None)), "")
  }

  lemma DrawNow(ws0: seq<World>, acts0: seq<Action>, t: Tid, token: Token) returns (ws: seq<World>, acts: seq<Action>)
    requires IsRun(ws0, acts0)
    requires var w := ws0[|acts0|]; MayAct(w, t, Mint) && Unseen(w, token)
    ensures IsRun(ws, acts) && ws0 <= ws && acts == acts0 + [BeginMint(t, token, None, "")]
    ensures var w, w' := ws0[|acts0|], ws[|acts|];
      w' == w.(mintDraws := w.mintDraws + {token}).Move(t, Minting(token, DefaultEntry(w.now)))
  {
    var w := Apply(ws0[|acts0|], BeginMint(t, token, None, ""));
    OneStep(ws0, acts0, BeginMint(t, token, None, ""), w);
    ws, acts := ws0 + [w], acts0 + [BeginMint(t, token, None, "")];
  }

  lemma MintDraws(first: Token, minted: Token, now: Time) returns (ws: seq<World>, acts: seq<Action>)
    requires first != minted && minted != []
    ensures IsRun(ws, acts) && acts == [Authorize(1, Mint, Some(first))] + [BeginMint(1, minted, None, "")]
    ensures ws[0] == Init(first, now)
    ensures var w := ws[2];
      && w.now == now && w.primary == PrimaryState(first, None) && w.access == map[] && w.disk.temp == None
      && w.mintDraws == {minted} && w.primaryDraws == {first, []}
      && w.At(1) == Minting(minted, DefaultEntry(now)) && w.At(0) == Idle
  {
    var w0 := Init(first, now);
    ws, acts := AllowNow([w0], [], 1, Mint, first);
    ws, acts := DrawNow(ws, acts, 1, minted);
  }

  /** A mint that drew its token and waits for the access lock while a rotation revokes, and inserts then. */
  lemma MintAcrossRevocation(first: Token, second: Token, minted: Token, now: Time)
    returns (ws: seq<World>, acts: seq<Action>)
    requires first != second && second != minted && first != minted && [] !in {second, minted}
    ensures IsRun(ws, acts) && |acts| == 5 && ws[0] == Init(first, now)
    ensures acts[1] == BeginMint(1, minted, None, "") && acts[3] == BeginRotation(0, second, 0)
    ensures ws[5].access == map[Sha256(minted) := DefaultEntry(now)] && ws[5].now == now
    ensures ws[5].primary.current == first && ws[5].At(0) == Revoked(second, 0, 0) && ws[5].disk.temp == None
  {
    ws, acts := MintDraws(first, minted, now);
    ws, acts := RequestRotation(ws, acts, 0, first, second, 0);
    var w4 := ws[4];
    SweepEmptyOrFresh(now, minted, DefaultEntry(now));
    assert w4.At(1) == Minting(minted, DefaultEntry(now)) && w4.At(0) == Revoked(second, 0, 0);
    var w5 := Apply(w4, EndMint(1, {}));
    OneStep(ws, acts, EndMint(1, {}), w5);
    ws, acts := ws + [w5], acts + [EndMint(1, {})];
  }

  /**
   The promise that a token minted under the old primary cannot outlive it does
   not hold: one drawn before the rotation begins and inserted after its
   revocation step still resolves once the new primary is in place.
   */
  lemma MintCanOutliveRotation(first: Token, second: Token, minted: Token, now: Time)
    returns (ws: seq<World>, acts: seq<Action>)
    requires first != second && second != minted && first != minted && [] !in {second, minted}
    ensures IsRun(ws, acts) && |acts| == 9
    ensures acts[1] == BeginMint(1, minted, None, "") && acts[3] == BeginRotation(0, second, 0) && acts[8] == Swap(0)
    ensures ws[0].primary.current == first && ws[9].primary.current == second
    ensures AcceptsAccess(ws[9], minted)
  {
    ws, acts := MintAcrossRevocation(first, second, minted, now);
    var w5 := ws[5];
    ws, acts := WriteThenSwap(ws, acts, 0, second, 0);
    assert ws[0] == Init(first, now) && ws[9].access == w5.access && ws[9].now == now;
    SweepEmptyOrFresh(now, minted, DefaultEntry(now));
    assert MatchPrimary(ws[9].primary, minted, now) == None;
  }

  /** The three steps of an undisturbed `write_token`. */
  lemma WriteToken(ws0: seq<World>, acts0: seq<Action>, t: Tid, token: Token, grace: nat)
    returns (ws: seq<World>, acts: seq<Action>)
    requires IsRun(ws0, acts0)
    requires var w := ws0[|acts0|]; w.disk.temp == None && w.At(t) == Revoked(token, grace, 0)
    ensures IsRun(ws, acts) && ws0 <= ws && acts == acts0 + [OpenTemp(t), WriteTemp(t), RenameTemp(t)]
    ensures var w, w' := ws0[|acts0|], ws[|acts|];
      && w'.access == w.access && w'.now == w.now && w'.primary == w.primary
      && w'.mintDraws == w.mintDraws && w'.primaryDraws == w.primaryDraws
      && w'.disk.temp == None && Stored(w'.disk) == token
      && w'.At(t) == Persisted(token, grace, 0) && forall u | u != t :: w'.At(u) == w.At(u)
  {
    var n := |acts0|;
    var w0 := ws0[n];
    var w1 := Apply(w0, OpenTemp(t));
    OneStep(ws0, acts0, OpenTemp(t), w1);
    ws, acts := ws0 + [w1], acts0 + [OpenTemp(t)];
    assert w1.At(t) == Opened(token, grace, 0, |w0.disk.files|) && ws[n + 1] == w1;
    var w2 := Apply(w1, WriteTemp(t));
    OneStep(ws, acts, WriteTemp(t), w2);
    ws, acts := ws + [w2], acts + [WriteTemp(t)];
    assert w2.At(t) == Written(token, grace, 0, |w0.disk.files|) && ws[n + 2] == w2;
    var w3 := Apply(w2, RenameTemp(t));
    OneStep(ws, acts, RenameTemp(t), w3);
    ws, acts := ws + [w3], acts + [RenameTemp(t)];
  }

  lemma WriteThenSwap(ws0: seq<World>, acts0: seq<Action>, t: Tid, token: Token, grace: nat)
    returns (ws: seq<World>, acts: seq<Action>)
    requires IsRun(ws0, acts0)
    requires var w := ws0[|acts0|]; w.disk.temp == None && w.At(t) == Revoked(token, grace, 0)
    ensures IsRun(ws, acts) && ws0 <= ws && acts == acts0 + [OpenTemp(t), WriteTemp(t), RenameTemp(t)] + [Swap(t)]
    ensures var w, w' := ws0[|acts0|], ws[|acts|];
      && w'.access == w.access && w'.now == w.now && w'.disk.temp == None && w'.At(t) == Idle
      && w'.mintDraws == w.mintDraws && w'.primaryDraws == w.primaryDraws
      && (forall u | u != t :: w'.At(u) == w.At(u)) && w'.primary == Swapped(w.primary, token, grace, w.now)
  {
    ws, acts := WriteToken(ws0, acts0, t, token, grace);
    var w := Apply(ws[|acts|], Swap(t));
    OneStep(ws, acts, Swap(t), w);
    ws, acts := ws + [w], acts + [Swap(t)];
  }

  // ----- which mints outlive a moment

  /**
   A token of a mint authorised by this world is live in the map, or waits to be
   inserted and lasts, or is still to be drawn.
   */
  ghost predicate MintsLinger(w: World) {
    || Sweep(w.access, w.now) != map[]
    || (exists t :: t in w.pcs && w.pcs[t].Minting? && w.pcs[t].entry.expires > w.now)
    || (exists t :: t in w.pcs && MayAct(w, t, Mint))
  }

  /** The token's mint was authorised by world `k`: it was drawn by then, or later by a thread allowed to since then. */
  ghost predicate AuthorizedBy(ws: seq<World>, acts: seq<Action>, k: nat, token: Token)
    requires |ws| == |acts| + 1 && k < |ws|
  {
    token in ws[k].mintDraws || exists m :: DrawnFromWaiting(ws, acts, k, m, token)
  }

  ghost predicate DrawnFromWaiting(ws: seq<World>, acts: seq<Action>, k: nat, m: int, token: Token)
    requires |ws| == |acts| + 1
  {
    && k <= m < |acts| && acts[m].BeginMint? && acts[m].token == token
    && forall j | k <= j <= m :: MayAct(ws[j], acts[m].t, Mint)
  }

  /** Some continuation of the run accepts this string as an access token whose mint was authorised by now. */
  ghost predicate AcceptedLater(ws: seq<World>, acts: seq<Action>, token: Token)
    requires |ws| == |acts| + 1
  {
    exists ws', acts' :: Extends(ws, acts, ws', acts') && AuthorizedBy(ws', acts', |acts|, token)
                         && AcceptsAccess(ws'[|acts'|], token)
  }

  ghost predicate Extends(ws: seq<World>, acts: seq<Action>, ws': seq<World>, acts': seq<Action>) {
    IsRun(ws', acts') && ws <= ws' && acts <= acts'
  }

  predicate AcceptsAccess(w: World, token: Token) {
    w.Resolve(token).Some? && w.Resolve(token).value.kind == Access
  }

  /** All that is left of the tokens in `drawn` has run out. */
  ghost predicate AllExpired(w: World, drawn: set<Token>) {
    && (forall d | d in w.access && d.preimage in drawn :: w.access[d].expires <= w.now)
    && (forall t | t in w.pcs && w.pcs[t].Minting? && w.pcs[t].token in drawn :: w.pcs[t].entry.expires <= w.now)
  }

  lemma StepAllExpired(w: World, a: Action, drawn: set<Token>)
    requires Enabled(w, a) && AllExpired(w, drawn) && drawn <= w.mintDraws
    ensures AllExpired(Apply(w, a), drawn)
  {
  }

  lemma {:induction false} RunsAllExpired(ws: seq<World>, acts: seq<Action>, i: nat, k: nat)
    requires IsRun(ws, acts) && i <= k < |ws| && AllExpired(ws[i], ws[i].mintDraws)
    ensures AllExpired(ws[k], ws[i].mintDraws)
    decreases k - i
  {
    if i < k {
      RunsAllExpired(ws, acts, i, k - 1);
      RunsGrow(ws, acts, i, k - 1);
      assert StepAt(ws, acts, k - 1);
      StepAllExpired(ws[k - 1], acts[k - 1], ws[i].mintDraws);
    }
  }

  /** The eviction of `issue_access` always finds what to remove. */
  lemma {:induction false} VictimsExist(live: AccessMap, n: nat) returns (victims: set<Digest>)
    requires n <= |live|
    ensures victims <= live.Keys && |victims| == n && EvictedFirst(live, victims)
  {
    victims := {};
    if n > 0 {
      victims := VictimsExist(live, n - 1);
      WithoutSize(live, victims);
      SoonestOf(live - victims);
      var oldest :| oldest in live - victims && forall d | d in live - victims ::
          (live - victims)[oldest].expires <= (live - victims)[d].expires;
      EvictOneMore(live, victims, oldest);
      victims := victims + {oldest};
    }
  }

  /** A waiting mint, once inserted, is accepted while it lasts. */
  lemma InsertNow(ws0: seq<World>, acts0: seq<Action>, t: Tid) returns (ws: seq<World>, acts: seq<Action>)
    requires IsRun(ws0, acts0)
    requires var w := ws0[|acts0|]; t in w.pcs && w.pcs[t].Minting? && w.pcs[t].entry.expires > w.now
    ensures Extends(ws0, acts0, ws, acts) && |acts| == |acts0| + 1
        && AcceptsAccess(ws[|acts|], ws0[|acts0|].pcs[t].token)
  {
    var w := ws0[|acts0|];
    var live := Sweep(w.access, w.now);
    var victims := VictimsExist(live, if |live| < MAX_LIVE_ACCESS then 0 else |live| - (MAX_LIVE_ACCESS - 1));
    var w' := Apply(w, EndMint(t, victims));
    OneStep(ws0, acts0, EndMint(t, victims), w');
    ws, acts := ws0 + [w'], acts0 + [EndMint(t, victims)];
    RunsKeepInv(ws0, acts0, |acts0|);
    InsertedAccepted(w, t, victims);
  }

  lemma WaitingInserts(ws: seq<World>, acts: seq<Action>, t: Tid)
    requires IsRun(ws, acts)
    requires var w := ws[|acts|]; t in w.pcs && w.pcs[t].Minting? && w.pcs[t].entry.expires > w.now
    ensures AcceptedLater(ws, acts, ws[|acts|].pcs[t].token)
  {
    RunsKeepInv(ws, acts, |acts|);
    var ws', acts' := InsertNow(ws, acts, t);
    assert ws'[|acts|] == ws[|acts|];
  }

  /** There is always something left to draw. */
  lemma {:induction false} FreshToken(drawn: set<Token>) returns (token: Token)
    ensures token !in drawn && forall d | d in drawn :: |d| < |token|
  {
    token := [0];
    if drawn != {} {
      var d :| d in drawn;
      var rest := FreshToken(drawn - {d});
      token := rest + d + [0];
      assert |d| < |token| && |rest| < |token|;
      forall e | e in drawn
        ensures |e| < |token|
      {
        assert e == d || e in drawn - {d};
      }
    }
  }

  /** An allowed mint request draws and inserts, whatever became of the token that allowed it. */
  lemma AllowedMints(ws: seq<World>, acts: seq<Action>, t: Tid) returns (token: Token)
    requires IsRun(ws, acts) && MayAct(ws[|acts|], t, Mint)
    ensures AcceptedLater(ws, acts, token)
  {
    var w := ws[|acts|];
    token := FreshToken(w.mintDraws + w.primaryDraws);
    var ws1, acts1 := DrawNow(ws, acts, t, token);
    var ws2, acts2 := InsertNow(ws1, acts1, t);
    DrawnByAllowed(ws, acts, ws1, acts1, ws2, acts2, t, token);
  }

  lemma DrawnByAllowed(
    ws: seq<World>, acts: seq<Action>, ws1: seq<World>, acts1: seq<Action>, ws2: seq<World>, acts2: seq<Action>, t: Tid,
    token: Token)
    requires IsRun(ws, acts) && MayAct(ws[|acts|], t, Mint)
    requires IsRun(ws1, acts1) && ws <= ws1 && acts1 == acts + [BeginMint(t, token, None, "")]
    requires Extends(ws1, acts1, ws2, acts2)
    ensures Extends(ws, acts, ws2, acts2) && AuthorizedBy(ws2, acts2, |acts|, token)
  {
    assert acts2[|acts|] == acts1[|acts|] && ws2[|acts|] == ws1[|acts|] == ws[|acts|];
    assert DrawnFromWaiting(ws2, acts2, |acts|, |acts|, token);
  }

  lemma InsertedAccepted(w: World, t: Tid, victims: set<Digest>)
    requires Inv(w) && Enabled(w, EndMint(t, victims)) && w.At(t).entry.expires > w.now
    ensures AcceptsAccess(Apply(w, EndMint(t, victims)), w.At(t).token)
  {
    var w', token := Apply(w, EndMint(t, victims)), w.At(t).token;
    assert token in w.mintDraws && MatchPrimary(w'.primary, token, w'.now) == None;
    assert Sha256(token) in w'.access && w'.access[Sha256(token)] == w.At(t).entry;
  }

  lemma LiveNow(ws: seq<World>, acts: seq<Action>, d: Digest)
    requires IsRun(ws, acts) && d in Sweep(ws[|acts|].access, ws[|acts|].now)
    ensures d.preimage in ws[|acts|].mintDraws && AcceptedLater(ws, acts, d.preimage)
  {
    RunsKeepInv(ws, acts, |acts|);
    assert Sha256(d.preimage) == d;
    assert MatchPrimary(ws[|acts|].primary, d.preimage, ws[|acts|].now) == None;
    assert Extends(ws, acts, ws, acts) && AcceptsAccess(ws[|acts|], d.preimage);
  }

  /**
   Exactly when the promise holds. Take any run, in particular one that just
   made the swap of a rotation: no access token whose mint was authorised so far
   is ever accepted again, in any continuation, iff no live one is in the map, no
   mint that lasts is waiting to insert one, and no allowed request is waiting to
   draw one.
   */
  lemma OutlivesIffLingers(ws: seq<World>, acts: seq<Action>)
    requires IsRun(ws, acts)
    ensures (exists token :: AcceptedLater(ws, acts, token)) <==> MintsLinger(ws[|acts|])
  {
    var w := ws[|acts|];
    if MintsLinger(w) {
      if d :| d in Sweep(w.access, w.now) {
        LiveNow(ws, acts, d);
      } else if t :| t in w.pcs && w.pcs[t].Minting? && w.pcs[t].entry.expires > w.now {
        WaitingInserts(ws, acts, t);
      } else {
        var t :| t in w.pcs && MayAct(w, t, Mint);
        var token := AllowedMints(ws, acts, t);
      }
    } else {
      forall d | d in w.access
        ensures w.access[d].expires <= w.now
      {
        assert d !in Sweep(w.access, w.now);
      }
      forall token
        ensures !AcceptedLater(ws, acts, token)
      {
        NoneAcceptedLater(ws, acts, token);
      }
    }
  }

  lemma NoneAcceptedLater(ws: seq<World>, acts: seq<Action>, token: Token)
    requires IsRun(ws, acts) && AllExpired(ws[|acts|], ws[|acts|].mintDraws)
    requires forall t | t in ws[|acts|].pcs :: !MayAct(ws[|acts|], t, Mint)
    ensures !AcceptedLater(ws, acts, token)
  {
    forall ws', acts' | Extends(ws, acts, ws', acts') && AuthorizedBy(ws', acts', |acts|, token)
      ensures !AcceptsAccess(ws'[|acts'|], token)
    {
      assert ws'[|acts|] == ws[|acts|];
      DrawnAlready(ws', acts', |acts|, token);
      RunsAllExpired(ws', acts', |acts|, |acts'|);
      assert Sha256(token).preimage == token;
    }
  }

  lemma DrawnAlready(ws: seq<World>, acts: seq<Action>, k: nat, token: Token)
    requires |ws| == |acts| + 1 && k < |ws| && AuthorizedBy(ws, acts, k, token)
    requires forall t | t in ws[k].pcs :: !MayAct(ws[k], t, Mint)
    ensures token in ws[k].mintDraws
  {
    if m :| DrawnFromWaiting(ws, acts, k, m, token) {
      assert MayAct(ws[k], acts[m].t, Mint);
    }
  }

  lemma OneStep(ws: seq<World>, acts: seq<Action>, a: Action, w: World)
    requires IsRun(ws, acts) && Enabled(ws[|acts|], a) && w == Apply(ws[|acts|], a)
    ensures IsRun(ws + [w], acts + [a])
  {
    forall i | 0 <= i < |acts| + 1
      ensures StepAt(ws + [w], acts + [a], i)
    {
      assert i < |acts| ==> StepAt(ws, acts, i);
    }
  }

  lemma FirstStep(w: World, a: Action, w': World)
    requires w == Init(w.primary.current, w.now) && Enabled(w, a) && w' == Apply(w, a)
    ensures IsRun([w, w'], [a])
  {
  }

  lemma SweepEmptyOrFresh(now: Time, token: Token, entry: AccessEntry)
    requires entry.expires > now
    ensures Sweep(map[], now) == map[] && Evictable(map[], {})
    ensures TokenStore.Inserted(map[], {}, token, entry) == map[Sha256(token) := entry]
    ensures Sweep(map[Sha256(token) := entry], now) == map[Sha256(token) := entry]
  {
  }
}
