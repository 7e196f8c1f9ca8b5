/**
 Managing tokens over time (src/daemon/api/rest.rs). `require_primary` and
 `reject_grace` judge what authentication found when the request came in; the
 handler acts later, after it has waited for its body, and rotations may come in
 between.
 */
module TokenRequests {
  import opened Common
  import opened TokenStore
  import opened TokenThreads
  import TokenDisk

  /** The request a step acts on. */
  function RequestOf(a: Action): Option<Request> {
    match a
    case BeginMint(_, _, _, _) => Some(Mint)
    case RevokeAccess(_) => Some(Revoke)
    case BeginRotation(_, _, _) => Some(Rotate)
    case Commit(_) => Some(Confirm)
    case _ => None
  }

  /** Thread `t`'s request came in at step `a` with this token and is acted on at step `c`. */
  ghost predicate Served(
    ws: seq<World>, acts: seq<Action>, a: nat, c: nat, t: Tid, request: Request, token: Token)
    requires |ws| == |acts| + 1
  {
    && a < c < |acts| && acts[a] == Authorize(t, request, Some(token))
    && TokenDisk.StepsOn(acts[c], t) && RequestOf(acts[c]) == Some(request)
    && forall j | a < j <= c :: ws[j].At(t) == Allowed(request, Some(token))
  }

  ghost predicate NoSwap(acts: seq<Action>, from: int, to: int)
    requires 0 <= from && to <= |acts|
  {
    forall j | from <= j < to :: !acts[j].Swap?
  }

  ghost predicate NoCommit(acts: seq<Action>, from: int, to: int)
    requires 0 <= from && to <= |acts|
  {
    forall j | from <= j < to :: !acts[j].Commit?
  }

  ghost predicate NoRestart(acts: seq<Action>, from: int, to: int)
    requires 0 <= from && to <= |acts|
  {
    forall j | from <= j < to :: !acts[j].Restart?
  }

  // ----- what becomes of the token a request came with

  /** A token that has been drawn and that no rotation in progress will install. */
  ghost predicate Spent(w: World, token: Token) {
    token in w.primaryDraws && forall t | t in w.pcs :: Pending(w.pcs[t]) != Some(token)
  }

  lemma StepSpent(w: World, a: Action, token: Token)
    requires Enabled(w, a) && Spent(w, token)
    ensures Spent(Apply(w, a), token)
    ensures a.Swap? ==> Apply(w, a).primary.current != token
  {
    if a.Swap? {
      assert Pending(w.pcs[a.t]) != Some(token);
    }
  }

  /** A spent token that is not the primary does not become it again while the daemon runs. */
  lemma {:induction false} NotBack(ws: seq<World>, acts: seq<Action>, i: nat, j: nat, token: Token)
    requires IsRun(ws, acts) && i <= j < |ws| && Spent(ws[i], token) && NoRestart(acts, i, j)
    ensures Spent(ws[j], token)
    ensures ws[i].primary.current != token || !NoSwap(acts, i, j) ==> ws[j].primary.current != token
    decreases j - i
  {
    if i < j {
      NotBack(ws, acts, i, j - 1, token);
      assert StepAt(ws, acts, j - 1);
      StepSpent(ws[j - 1], acts[j - 1], token);
      if !acts[j - 1].Swap? {
        StepKeepsPrimary(ws[j - 1], acts[j - 1]);
      }
    }
  }

  lemma StepKeepsPrimary(w: World, a: Action)
    requires Enabled(w, a) && !a.Swap? && !a.Restart?
    ensures Apply(w, a).primary == if a.Commit? then w.primary.(previous := None) else w.primary
  {
  }

  /** Without a swap the primary stays, and so does the window, until a commit. */
  lemma {:induction false} PrimaryKept(ws: seq<World>, acts: seq<Action>, i: nat, j: nat)
    requires IsRun(ws, acts) && i <= j < |ws| && NoSwap(acts, i, j) && NoRestart(acts, i, j)
    ensures ws[j].primary == if NoCommit(acts, i, j) then ws[i].primary else ws[i].primary.(previous := None)
    decreases j - i
  {
    if i < j {
      PrimaryKept(ws, acts, i, j - 1);
      assert StepAt(ws, acts, j - 1);
      StepKeepsPrimary(ws[j - 1], acts[j - 1]);
    }
  }

  /** The swap's own window. */
  function WindowEnd(w: World, a: Action): Time
    requires Enabled(w, a) && a.Swap?
  {
    w.now + ClampGrace(w.At(a.t).grace)
  }

  /** Behind its last swap a run knows the swapped-in token and, while the window lasts, the one it replaced. */
  lemma AfterLastSwap(ws: seq<World>, acts: seq<Action>, s: nat, c: nat)
    requires IsRun(ws, acts) && s < c < |ws| && acts[s].Swap? && NoSwap(acts, s + 1, c) && NoRestart(acts, s, c)
    ensures Enabled(ws[s], acts[s])
    ensures var replaced := ws[s].primary.current;
      forall p | p != ws[c].primary.current ::
        MatchPrimary(ws[c].primary, p, ws[c].now).Some?
        <==> p == replaced && NoCommit(acts, s + 1, c) && ws[c].now < WindowEnd(ws[s], acts[s])
  {
    assert StepAt(ws, acts, s);
    PrimaryKept(ws, acts, s + 1, c);
    RunsGrow(ws, acts, s, c);
  }

  lemma {:induction false} LastSwap(acts: seq<Action>, i: nat, c: nat) returns (s: nat)
    requires i <= c <= |acts| && !NoSwap(acts, i, c)
    ensures i <= s < c && acts[s].Swap? && NoSwap(acts, s + 1, c)
    decreases c - i
  {
    if acts[c - 1].Swap? {
      s := c - 1;
    } else {
      s := LastSwap(acts, i, c - 1);
    }
  }

  // ----- from authentication to the act

  /** At authentication: the current primary may do everything, the replaced one inside its window all but confirm. */
  lemma AuthorizedIff(w: World, request: Request, token: Token)
    ensures MayDo(w, request, Some(token)) <==>
              || token == w.primary.current
              || (request != Confirm
                  && exists g :: w.primary.previous == Some(g) && token == g.token && w.now < g.deadline)
  {
  }

  lemma AuthorizedAt(ws: seq<World>, acts: seq<Action>, a: nat, c: nat, t: Tid, request: Request, token: Token)
    requires IsRun(ws, acts) && Served(ws, acts, a, c, t, request, token)
    ensures ws[a + 1].primary == ws[a].primary && ws[a + 1].now == ws[a].now && MayDo(ws[a], request, Some(token))
    ensures Spent(ws[a + 1], token) && NoRestart(acts, a + 1, c)
  {
    assert StepAt(ws, acts, a);
    assert ws[a + 1].At(t) == Allowed(request, Some(token));
    RunsKeepInv(ws, acts, a);
    TokenDisk.RunsRotationsApart(ws, acts, a);
    SpentNow(ws[a], request, token);
    StepSpent(ws[a], acts[a], token);
    forall j | a + 1 <= j < c
      ensures !acts[j].Restart?
    {
      assert StepAt(ws, acts, j);
      assert ws[j + 1].At(t) == Allowed(request, Some(token));
    }
  }

  lemma SpentNow(w: World, request: Request, token: Token)
    requires RolesApart(w) && TokenDisk.RotationsApart(w) && MayDo(w, request, Some(token))
    ensures Spent(w, token)
  {
    forall u | u in w.pcs
      ensures Pending(w.pcs[u]) != Some(token)
    {
      assert w.At(u) == w.pcs[u];
    }
  }

  /**
   A commit is made with the token that is the primary at that moment exactly
   when no rotation swapped since the request was authenticated.
   */
  lemma ConfirmedByNewIff(ws: seq<World>, acts: seq<Action>, a: nat, c: nat, t: Tid, token: Token)
    requires IsRun(ws, acts) && Served(ws, acts, a, c, t, Confirm, token)
    ensures token == ws[c].primary.current <==> NoSwap(acts, a + 1, c)
  {
    AuthorizedAt(ws, acts, a, c, t, Confirm, token);
    NotBack(ws, acts, a + 1, c, token);
    if NoSwap(acts, a + 1, c) {
      PrimaryKept(ws, acts, a + 1, c);
    }
  }

  /** Swap `s` is the only one since the request, and its window is still open and unconfirmed. */
  ghost predicate WindowOpen(ws: seq<World>, acts: seq<Action>, a: nat, s: int, c: nat)
    requires |ws| == |acts| + 1 && a < c < |acts|
  {
    && a < s < c && Enabled(ws[s], acts[s]) && acts[s].Swap?
    && NoSwap(acts, a + 1, s) && NoSwap(acts, s + 1, c) && NoCommit(acts, s + 1, c)
    && ws[c].now < WindowEnd(ws[s], acts[s])
  }

  /**
   The token a mint, revocation or rotation was authorised with would still be
   good for it at the act exactly when: for a request that came with the current
   primary, no rotation swapped since, or one did and its window is still open;
   for a request that came inside a window, that window is still open.
   */
  lemma StillGoodIff(ws: seq<World>, acts: seq<Action>, a: nat, c: nat, t: Tid, request: Request, token: Token)
    requires IsRun(ws, acts) && Served(ws, acts, a, c, t, request, token) && request != Confirm
    ensures MayDo(ws[c], request, Some(token)) <==>
              if token == ws[a].primary.current then NoSwap(acts, a + 1, c) || exists s :: WindowOpen(ws, acts, a, s, c)
              else NoSwap(acts, a + 1, c) && NoCommit(acts, a + 1, c)
                   && ws[a].primary.previous.Some? && ws[c].now < ws[a].primary.previous.value.deadline
  {
    AuthorizedAt(ws, acts, a, c, t, request, token);
    AuthorizedIff(ws[a], request, token);
    NotBack(ws, acts, a + 1, c, token);
    if NoSwap(acts, a + 1, c) {
      PrimaryKept(ws, acts, a + 1, c);
      AuthorizedIff(ws[c], request, token);
    } else {
      GoodBehindSwap(ws, acts, a, c, request, token);
    }
  }

  lemma GoodBehindSwap(ws: seq<World>, acts: seq<Action>, a: nat, c: nat, request: Request, token: Token)
    requires IsRun(ws, acts) && a < c < |acts| && Spent(ws[a + 1], token) && NoRestart(acts, a + 1, c)
    requires ws[a + 1].primary == ws[a].primary && request != Confirm && !NoSwap(acts, a + 1, c)
    ensures MayDo(ws[c], request, Some(token)) <==>
              token == ws[a].primary.current && exists s :: WindowOpen(ws, acts, a, s, c)
  {
    var s := LastSwap(acts, a + 1, c);
    NotBack(ws, acts, a + 1, c, token);
    NotBack(ws, acts, a + 1, s, token);
    AfterLastSwap(ws, acts, s, c);
    if NoSwap(acts, a + 1, s) {
      PrimaryKept(ws, acts, a + 1, s);
    }
    if MayDo(ws[c], request, Some(token)) {
      assert WindowOpen(ws, acts, a, s, c);
    }
    if x :| WindowOpen(ws, acts, a, x, c) {
      assert x == s;
    }
  }

  // ----- requests that outlive their token

  lemma {:induction false} ThreadStays(ws: seq<World>, acts: seq<Action>, i: nat, k: nat, t: Tid)
    requires IsRun(ws, acts) && i <= k < |ws|
    requires forall j | i <= j < k :: !acts[j].Restart? && !TokenDisk.StepsOn(acts[j], t)
    ensures ws[k].At(t) == ws[i].At(t)
    decreases k - i
  {
    if i < k {
      ThreadStays(ws, acts, i, k - 1, t);
      assert StepAt(ws, acts, k - 1);
    }
  }

  /** A request of the first primary waits while a rotation replaces it. */
  lemma RequestAcrossRotation(first: Token, second: Token, request: Request, grace: nat, now: Time)
    returns (ws: seq<World>, acts: seq<Action>)
    requires first != second && second != []
    ensures IsRun(ws, acts) && |acts| == 7 && ws[0] == Init(first, now)
    ensures acts[0] == Authorize(1, request, Some(first)) && acts[6] == Swap(0)
    ensures ws[7].primary == Swapped(PrimaryState(first, None), second, grace, now)
    ensures ws[7].now == now && ws[7].access == map[] && ws[7].disk.temp == None
    ensures ws[7].mintDraws == {} && ws[7].primaryDraws == {first, second, []}
    ensures forall j | 0 < j <= 7 :: ws[j].At(1) == Allowed(request, Some(first))
  {
    ws, acts := AllowNow([Init(first, now)], [], 1, request, first);
    assert ws[1].primaryDraws == {first, []} && ws[1].mintDraws == {};
    ws, acts := RequestRotation(ws, acts, 0, first, second, grace);
    ws, acts := WriteThenSwap(ws, acts, 0, second, grace);
    forall j | 0 < j <= 7
      ensures ws[j].At(1) == Allowed(request, Some(first))
    {
      ThreadStays(ws, acts, 1, j, 1);
    }
  }

  /** The replaced token confirms its own replacement: it ends the window that was to keep it working. */
  lemma ReplacedConfirms(first: Token, second: Token, now: Time) returns (ws: seq<World>, acts: seq<Action>)
    requires first != second && second != []
    ensures IsRun(ws, acts) && |acts| == 8 && Served(ws, acts, 0, 7, 1, Confirm, first)
    ensures ws[7].primary == PrimaryState(second, Some(Grace(first, now + SECOND)))
    ensures ws[8].primary == PrimaryState(second, None)
  {
    ws, acts := RequestAcrossRotation(first, second, Confirm, SECOND, now);
    var w8 := Apply(ws[7], Commit(1));
    OneStep(ws, acts, Commit(1), w8);
    ws, acts := ws + [w8], acts + [Commit(1)];
  }

  /** The replaced token, refused by now, mints an access token that is accepted. */
  lemma ReplacedMints(first: Token, second: Token, minted: Token, now: Time) returns (ws: seq<World>, acts: seq<Action>)
    requires first != second && second != minted && first != minted && [] !in {second, minted}
    ensures IsRun(ws, acts) && |acts| == 9 && Served(ws, acts, 0, 7, 1, Mint, first)
    ensures ws[7].primary == PrimaryState(second, None) && ws[7].Resolve(first) == None
    ensures AcceptsAccess(ws[9], minted)
  {
    ws, acts := RequestAcrossRotation(first, second, Mint, 0, now);
    var w7 := ws[7];
    assert MatchPrimary(w7.primary, first, now) == None;
    ws, acts := DrawNow(ws, acts, 1, minted);
    var w8 := ws[8];
    assert w8.At(1) == Minting(minted, DefaultEntry(now)) && w8.pcs[1] == w8.At(1);
    ws, acts := InsertNow(ws, acts, 1);
  }

  /** The replaced token, refused by now, replaces its replacement. */
  lemma ReplacedRotates(first: Token, second: Token, third: Token, now: Time)
    returns (ws: seq<World>, acts: seq<Action>)
    requires first != second && second != third && first != third && [] !in {second, third}
    ensures IsRun(ws, acts) && |acts| == 12 && Served(ws, acts, 0, 7, 1, Rotate, first)
    ensures ws[7].primary == PrimaryState(second, None) && ws[7].Resolve(first) == None
    ensures ws[12].primary == PrimaryState(third, None)
  {
    ws, acts := RequestAcrossRotation(first, second, Rotate, 0, now);
    var w7 := ws[7];
    assert MatchPrimary(w7.primary, first, now) == None && Sweep(map[], now) == map[];
    var w8 := Apply(w7, BeginRotation(1, third, 0));
    OneStep(ws, acts, BeginRotation(1, third, 0), w8);
    ws, acts := ws + [w8], acts + [BeginRotation(1, third, 0)];
    assert w8.At(1) == Revoked(third, 0, 0) && w8.disk.temp == None;
    ws, acts := WriteThenSwap(ws, acts, 1, third, 0);
  }
}
