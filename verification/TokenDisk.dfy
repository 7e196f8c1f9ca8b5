/**
 The token file against the primary in memory. `rotate` writes the file before
 it swaps, under no lock, by three system calls on a temporary file whose name
 all rotations share; a restart knows only the file.
 */
module TokenDisk {
  import opened Common
  import opened TokenStore
  import opened TokenThreads

  predicate InFlight(w: World, t: Tid) {
    Pending(w.At(t)).Some?
  }

  /** A thread between the open and the rename of `write_token`. */
  predicate Writing(pc: Pc) {
    pc.Opened? || pc.Written?
  }

  // ----- rotations one at a time

  ghost predicate OneRotation(w: World) {
    forall t, u | t in w.pcs && u in w.pcs && InFlight(w, t) && InFlight(w, u) :: t == u
  }

  /** No two rotations of the run overlap. */
  ghost predicate Serial(ws: seq<World>) {
    forall k | 0 <= k < |ws| :: OneRotation(ws[k])
  }

  /** Between the rename and the swap the file is one token ahead; otherwise they agree. */
  ghost predicate OneAhead(w: World) {
    && (forall t | t in w.pcs && InFlight(w, t) :: AheadFor(w, t))
    && (NonePersisted(w) ==> Stored(w.disk) == w.primary.current)
  }

  ghost predicate NonePersisted(w: World) {
    forall t | t in w.pcs :: !w.pcs[t].Persisted?
  }

  predicate StepsOn(a: Action, t: Tid) {
    !a.Tick? && !a.Restart? && a.t == t
  }

  /** Nobody else moves the file under a rotation that runs alone. */
  lemma AloneOnDisk(w: World, a: Action, t: Tid)
    requires Enabled(w, a) && OneRotation(w) && t in w.pcs && InFlight(w, t) && !StepsOn(a, t)
    ensures Apply(w, a).disk == w.disk
  {
  }

  lemma OthersStay(w: World, a: Action, t: Tid)
    requires Enabled(w, a) && t in Apply(w, a).pcs && !StepsOn(a, t)
    ensures t in w.pcs && Apply(w, a).pcs[t] == w.pcs[t]
  {
  }

  lemma StepOneAhead(w: World, a: Action)
    requires Enabled(w, a) && OneAhead(w) && OneRotation(w)
    ensures OneAhead(Apply(w, a))
  {
    var w' := Apply(w, a);
    forall t | t in w'.pcs && InFlight(w', t)
      ensures AheadFor(w', t)
    {
      StepAheadFor(w, a, t);
    }
    StepQuietAgrees(w, a);
  }

  /** What the file looks like from one rotation. */
  ghost predicate AheadFor(w: World, t: Tid) {
    match w.At(t)
    case Opened(_, _, _, fd) => w.disk.temp == Some(fd)
    case Written(token, _, _, fd) => w.disk.temp == Some(fd) && w.disk.files[fd] == token
    case Persisted(token, _, _) => Stored(w.disk) == token
    case _ => true
  }

  lemma StepAheadFor(w: World, a: Action, t: Tid)
    requires Enabled(w, a) && OneAhead(w) && OneRotation(w) && t in Apply(w, a).pcs && InFlight(Apply(w, a), t)
    ensures AheadFor(Apply(w, a), t)
  {
    if !StepsOn(a, t) {
      OthersStay(w, a, t);
      AloneOnDisk(w, a, t);
    } else {
      assert t in w.pcs || a.BeginRotation?;
    }
  }

  lemma StepQuietAgrees(w: World, a: Action)
    requires Enabled(w, a) && OneAhead(w)
    ensures NonePersisted(Apply(w, a)) ==> Stored(Apply(w, a).disk) == Apply(w, a).primary.current
  {
    var w' := Apply(w, a);
    if !a.Tick? && !a.Restart? && !a.Swap? {
      assert a.t in w'.pcs || w' == w || w'.pcs == w.pcs;
      assert forall t | t != a.t && t in w.pcs :: t in w'.pcs && w'.pcs[t] == w.pcs[t];
      assert NonePersisted(w') ==> NonePersisted(w);
    }
  }

  lemma {:induction false} SerialRunsOneAhead(ws: seq<World>, acts: seq<Action>, k: nat)
    requires IsRun(ws, acts) && Serial(ws) && k < |ws|
    ensures OneAhead(ws[k])
  {
    if k > 0 {
      SerialRunsOneAhead(ws, acts, k - 1);
      assert StepAt(ws, acts, k - 1);
      StepOneAhead(ws[k - 1], acts[k - 1]);
    }
  }

  /** With rotations one at a time, file and memory agree whenever none is in progress. */
  lemma SerialRotationsAgree(ws: seq<World>, acts: seq<Action>, k: nat)
    requires IsRun(ws, acts) && Serial(ws) && k < |ws|
    requires forall t | t in ws[k].pcs :: !InFlight(ws[k], t)
    ensures Stored(ws[k].disk) == ws[k].primary.current
  {
    SerialRunsOneAhead(ws, acts, k);
  }

  // ----- any overlap: what every step keeps

  /**
   Rotations in progress install distinct tokens, none of them in place already,
   and none written yet is in a file.
   */
  ghost predicate RotationsApart(w: World) {
    && (forall t, u | t in w.pcs && u in w.pcs && t != u && InFlight(w, t) && InFlight(w, u) ::
          Pending(w.At(t)) != Pending(w.At(u)))
    && (forall t | t in w.pcs && InFlight(w, t) :: New(w, Pending(w.At(t)).value))
    && (forall t | t in w.pcs && (w.pcs[t].Revoked? || w.pcs[t].Opened?) :: w.pcs[t].newToken !in w.disk.files)
    && (forall t | t in w.pcs && Writing(w.pcs[t]) :: w.pcs[t].fd < |w.disk.files|)
  }

  /** Neither the primary nor the one it replaced, nor what an empty file reads as. */
  predicate New(w: World, token: Token) {
    && token != [] && token != w.primary.current
    && (w.primary.previous.Some? ==> token != w.primary.previous.value.token)
  }

  lemma StepPendingDistinct(w: World, a: Action)
    requires Enabled(w, a) && RolesApart(w) && RotationsApart(w)
    ensures var w' := Apply(w, a);
      && (forall t, u | t in w'.pcs && u in w'.pcs && t != u && InFlight(w', t) && InFlight(w', u) ::
            Pending(w'.At(t)) != Pending(w'.At(u)))
  {
  }

  lemma StepPendingNew(w: World, a: Action)
    requires Enabled(w, a) && RolesApart(w) && RotationsApart(w)
    ensures var w' := Apply(w, a); forall t | t in w'.pcs && InFlight(w', t) :: New(w', Pending(w'.At(t)).value)
  {
    var w' := Apply(w, a);
    forall t | t in w'.pcs && InFlight(w', t)
      ensures New(w', Pending(w'.At(t)).value)
    {
      PendingStaysNew(w, a, t);
    }
  }

  lemma PendingStaysNew(w: World, a: Action, t: Tid)
    requires Enabled(w, a) && RolesApart(w) && RotationsApart(w)
    requires t in Apply(w, a).pcs && InFlight(Apply(w, a), t)
    ensures New(Apply(w, a), Pending(Apply(w, a).At(t)).value)
  {
    if !StepsOn(a, t) {
      OthersStay(w, a, t);
      assert InFlight(w, t);
      if a.Swap? {
        assert Pending(w.At(a.t)) != Pending(w.At(t));
      }
    } else {
      assert a.BeginRotation? || Pending(w.At(t)) == Pending(Apply(w, a).At(t));
    }
  }

  lemma StepUnwritten(w: World, a: Action)
    requires Enabled(w, a) && RolesApart(w) && RotationsApart(w)
    ensures var w' := Apply(w, a);
      forall t | t in w'.pcs && (w'.pcs[t].Revoked? || w'.pcs[t].Opened?) :: w'.pcs[t].newToken !in w'.disk.files
  {
    forall t | t in Apply(w, a).pcs && (Apply(w, a).pcs[t].Revoked? || Apply(w, a).pcs[t].Opened?)
      ensures Apply(w, a).pcs[t].newToken !in Apply(w, a).disk.files
    {
      UnwrittenStays(w, a, t);
    }
  }

  lemma UnwrittenStays(w: World, a: Action, t: Tid)
    requires Enabled(w, a) && RolesApart(w) && RotationsApart(w)
    requires var w' := Apply(w, a); t in w'.pcs && (w'.pcs[t].Revoked? || w'.pcs[t].Opened?)
    ensures Apply(w, a).pcs[t].newToken !in Apply(w, a).disk.files
  {
    UnwrittenBefore(w, a, t);
    if a.WriteTemp? {
      OthersStay(w, a, t);
      assert Pending(w.At(a.t)) != Pending(w.At(t));
    }
    FilesAfter(w, a);
  }

  lemma UnwrittenBefore(w: World, a: Action, t: Tid)
    requires Enabled(w, a) && RolesApart(w) && RotationsApart(w)
    requires var w' := Apply(w, a); t in w'.pcs && (w'.pcs[t].Revoked? || w'.pcs[t].Opened?)
    ensures var token := Apply(w, a).pcs[t].newToken; token !in w.disk.files && token != []
  {
    if !StepsOn(a, t) {
      OthersStay(w, a, t);
    } else {
      assert a.BeginRotation? || (t in w.pcs && w.pcs[t].Revoked? && w.At(t) == w.pcs[t]);
    }
  }

  /** What a step can leave in a file. */
  lemma FilesAfter(w: World, a: Action)
    requires Enabled(w, a)
    ensures forall x | x in Apply(w, a).disk.files ::
        x in w.disk.files || x == [] || (a.WriteTemp? && x == w.At(a.t).newToken)
  {
  }

  lemma StepDescriptors(w: World, a: Action)
    requires Enabled(w, a) && RotationsApart(w)
    ensures var w' := Apply(w, a);
      && |w.disk.files| <= |w'.disk.files|
      && forall t | t in w'.pcs && Writing(w'.pcs[t]) :: w'.pcs[t].fd < |w'.disk.files|
  {
  }

  lemma {:induction false} RunsRotationsApart(ws: seq<World>, acts: seq<Action>, k: nat)
    requires IsRun(ws, acts) && k < |ws|
    ensures RotationsApart(ws[k])
  {
    if k > 0 {
      RunsRotationsApart(ws, acts, k - 1);
      RunsKeepInv(ws, acts, k - 1);
      var w, a := ws[k - 1], acts[k - 1];
      assert StepAt(ws, acts, k - 1);
      StepPendingDistinct(w, a);
      StepPendingNew(w, a);
      StepUnwritten(w, a);
      StepDescriptors(w, a);
    }
  }
}
