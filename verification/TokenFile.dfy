/**
 Which token the file holds when rotations overlap: every interleaving of the
 open, write and rename steps of `write_token` on their shared temporary name.
 */
module TokenFile {
  import opened Common
  import opened TokenStore
  import opened TokenThreads
  import opened TokenDisk

  /** A rename that finds the temporary name. */
  predicate Renames(w: World, a: Action) {
    a.RenameTemp? && w.disk.temp.Some?
  }

  /** A step that empties or overwrites file `f`. */
  predicate Touches(w: World, a: Action, f: nat) {
    || (a.OpenTemp? && w.disk.temp == Some(f))
    || (a.WriteTemp? && w.At(a.t).Opened? && w.At(a.t).fd == f)
  }

  ghost predicate Untouched(ws: seq<World>, acts: seq<Action>, from: int, to: int, f: nat)
    requires |ws| == |acts| + 1 && 0 <= from && to <= |acts|
  {
    forall j | from <= j < to :: !Touches(ws[j], acts[j], f)
  }

  ghost predicate NoRename(ws: seq<World>, acts: seq<Action>, from: int, to: int)
    requires |ws| == |acts| + 1 && 0 <= from && to <= |acts|
  {
    forall j | from <= j < to :: !Renames(ws[j], acts[j])
  }

  /** One rotation's open, write and successful rename: steps `o`, `v` and `n` of thread `t`, through descriptor `f`. */
  ghost predicate Rotation(ws: seq<World>, acts: seq<Action>, o: nat, v: nat, n: nat, t: Tid, token: Token, f: nat)
    requires |ws| == |acts| + 1
  {
    && o < v < n < |acts| && acts[o] == OpenTemp(t) && acts[v] == WriteTemp(t) && acts[n] == RenameTemp(t)
    && Renames(ws[n], acts[n])
    && (forall x | o < x <= v :: ws[x].At(t).Opened? && ws[x].At(t).newToken == token && ws[x].At(t).fd == f)
    && (forall x | v < x <= n :: ws[x].At(t).Written? && ws[x].At(t).newToken == token && ws[x].At(t).fd == f)
  }

  /**
   The interleaving left this rotation's token alone: no other rename succeeded
   since its open, no other open came between its write and its rename, and
   nobody wrote into the file it had opened after it did.
   */
  ghost predicate Undisturbed(ws: seq<World>, acts: seq<Action>, o: nat, v: nat, n: nat, k: nat, f: nat)
    requires |ws| == |acts| + 1 && o < v < n < k <= |acts|
  {
    && NoRename(ws, acts, o + 1, n) && NoRename(ws, acts, n + 1, k)
    && (forall j | v < j < n :: !acts[j].OpenTemp?)
    && (forall j | v < j < k && acts[j].WriteTemp? && ws[j].At(acts[j].t).Opened? :: ws[j].At(acts[j].t).fd != f)
  }

  // ----- where a token can be

  /** No rotation is still going to write this token. */
  ghost predicate Past(w: World, token: Token) {
    && token in w.primaryDraws
    && forall t | t in w.pcs && (w.pcs[t].Revoked? || w.pcs[t].Opened?) :: w.pcs[t].newToken != token
  }

  lemma StepPast(w: World, a: Action, token: Token)
    requires Enabled(w, a) && Past(w, token)
    ensures Past(Apply(w, a), token)
  {
  }

  /** Exactly one file, if any, holds the token. */
  ghost predicate OnlyIn(disk: Disk, token: Token, f: nat, held: bool) {
    forall i | 0 <= i < |disk.files| :: disk.files[i] == token <==> i == f && held
  }

  lemma StepOnlyIn(w: World, a: Action, token: Token, f: nat, held: bool)
    requires Enabled(w, a) && Past(w, token) && token != []
    requires OnlyIn(w.disk, token, f, held) && f < |w.disk.files|
    ensures f < |Apply(w, a).disk.files|
    ensures OnlyIn(Apply(w, a).disk, token, f, held && !Touches(w, a, f))
  {
  }

  /** Where the token is, `held` steps of other threads after it was written. */
  ghost predicate Held(w: World, token: Token, f: nat, held: bool) {
    token != [] && Past(w, token) && f < |w.disk.files| && OnlyIn(w.disk, token, f, held)
  }

  lemma StepHeld(w: World, a: Action, token: Token, f: nat, held: bool)
    requires Enabled(w, a) && Held(w, token, f, held)
    ensures Held(Apply(w, a), token, f, held && !Touches(w, a, f))
  {
    StepPast(w, a, token);
    StepOnlyIn(w, a, token, f, held);
  }

  lemma OneMore(ws: seq<World>, acts: seq<Action>, i: nat, k: nat, f: nat)
    requires |ws| == |acts| + 1 && i < k <= |acts|
    ensures Untouched(ws, acts, i, k, f) <==> Untouched(ws, acts, i, k - 1, f) && !Touches(ws[k - 1], acts[k - 1], f)
  {
  }

  lemma {:induction false} HeldSinceWrite(ws: seq<World>, acts: seq<Action>, v: nat, t: Tid, token: Token, f: nat,
      k: nat)
    requires IsRun(ws, acts) && v < k < |ws| && acts[v] == WriteTemp(t)
    requires ws[v].At(t).Opened? && ws[v].At(t).newToken == token && ws[v].At(t).fd == f
    ensures Held(ws[k], token, f, Untouched(ws, acts, v + 1, k, f))
    decreases k
  {
    assert StepAt(ws, acts, k - 1);
    if k == v + 1 {
      RunsRotationsApart(ws, acts, v);
      RunsKeepInv(ws, acts, v);
      JustWritten(ws[v], t);
    } else {
      HeldSinceWrite(ws, acts, v, t, token, f, k - 1);
      StepHeld(ws[k - 1], acts[k - 1], token, f, Untouched(ws, acts, v + 1, k - 1, f));
      OneMore(ws, acts, v + 1, k, f);
    }
  }

  lemma JustWritten(w: World, t: Tid)
    requires Enabled(w, WriteTemp(t)) && RolesApart(w) && RotationsApart(w)
    ensures var token, w' := w.At(t).newToken, Apply(w, WriteTemp(t));
      Held(w', token, w.At(t).fd, true)
  {
    assert Pending(w.At(t)) == Some(w.At(t).newToken);
    assert w.At(t).newToken !in w.disk.files;
  }

  // ----- where a name can lead

  lemma StepNames(w: World, a: Action, f: nat)
    requires Enabled(w, a) && f < |w.disk.files| && w.disk.temp != Some(f)
    ensures var d := Apply(w, a).disk; f < |d.files| && d.temp != Some(f) && (w.disk.name != f ==> d.name != f)
  {
  }

  /** A file the temporary name no longer leads to never gets a name again. */
  lemma {:induction false} NeverNamedAgain(ws: seq<World>, acts: seq<Action>, i: nat, k: nat, f: nat)
    requires IsRun(ws, acts) && i <= k < |ws| && f < |ws[i].disk.files| && ws[i].disk.temp != Some(f)
    ensures f < |ws[k].disk.files| && ws[k].disk.temp != Some(f)
    ensures ws[i].disk.name != f ==> ws[k].disk.name != f
    decreases k - i
  {
    if i < k {
      NeverNamedAgain(ws, acts, i, k - 1, f);
      assert StepAt(ws, acts, k - 1);
      StepNames(ws[k - 1], acts[k - 1], f);
    }
  }

  lemma StepNameStays(w: World, a: Action)
    requires Enabled(w, a) && !Renames(w, a)
    ensures Apply(w, a).disk.name == w.disk.name
    ensures w.disk.temp.Some? ==> Apply(w, a).disk.temp == w.disk.temp
  {
  }

  /** Without a rename both names stay where they are. */
  lemma {:induction false} NamesStay(ws: seq<World>, acts: seq<Action>, i: nat, k: nat)
    requires IsRun(ws, acts) && i <= k < |ws| && NoRename(ws, acts, i, k)
    ensures ws[k].disk.name == ws[i].disk.name
    ensures ws[i].disk.temp.Some? ==> ws[k].disk.temp == ws[i].disk.temp
    decreases k - i
  {
    if i < k {
      NamesStay(ws, acts, i, k - 1);
      assert StepAt(ws, acts, k - 1);
      StepNameStays(ws[k - 1], acts[k - 1]);
    }
  }

  lemma RenamePublishes(ws: seq<World>, acts: seq<Action>, n: nat)
    requires IsRun(ws, acts) && n < |acts| && Renames(ws[n], acts[n])
    ensures ws[n].disk.temp == Some(ws[n + 1].disk.name) && ws[n + 1].disk.temp == None
    ensures ws[n + 1].disk.files == ws[n].disk.files
  {
    assert StepAt(ws, acts, n);
  }

  lemma OpenNames(ws: seq<World>, acts: seq<Action>, o: nat, v: nat, n: nat, t: Tid, token: Token, f: nat)
    requires IsRun(ws, acts) && Rotation(ws, acts, o, v, n, t, token, f)
    ensures ws[o + 1].disk.temp == Some(f)
  {
    assert StepAt(ws, acts, o);
    assert ws[o + 1].At(t).fd == f;
  }

  /** A file loses its temporary name at the next rename and is then only found where that rename put it. */
  lemma RenamedAway(ws: seq<World>, acts: seq<Action>, i: nat, j: nat, k: nat, f: nat)
    requires IsRun(ws, acts) && i <= j < k < |ws| && ws[i].disk.temp == Some(f)
    requires NoRename(ws, acts, i, j) && Renames(ws[j], acts[j])
    requires !NoRename(ws, acts, j + 1, k)
    ensures ws[k].disk.name != f
  {
    NamesStay(ws, acts, i, j);
    RenamePublishes(ws, acts, j);
    var x :| j + 1 <= x < k && Renames(ws[x], acts[x]);
    NeverNamedAgain(ws, acts, j + 1, x, f);
    RenamePublishes(ws, acts, x);
    NeverNamedAgain(ws, acts, x + 1, k, f);
  }

  /** The first rename in a stretch of the run. */
  lemma {:induction false} FirstRename(ws: seq<World>, acts: seq<Action>, i: nat, k: nat) returns (j: nat)
    requires |ws| == |acts| + 1 && i <= k <= |acts| && !NoRename(ws, acts, i, k)
    ensures i <= j < k && NoRename(ws, acts, i, j) && Renames(ws[j], acts[j])
    decreases k - i
  {
    if Renames(ws[i], acts[i]) {
      j := i;
    } else {
      j := FirstRename(ws, acts, i + 1, k);
    }
  }

  /**
   After a rename the token file is one that had the temporary name earlier exactly
   when no other rename came since.
   */
  lemma NamedIff(ws: seq<World>, acts: seq<Action>, i: nat, n: nat, k: nat, f: nat)
    requires IsRun(ws, acts) && i <= n < k < |ws| && ws[i].disk.temp == Some(f) && Renames(ws[n], acts[n])
    ensures ws[k].disk.name == f <==> NoRename(ws, acts, i, n) && NoRename(ws, acts, n + 1, k)
  {
    if NoRename(ws, acts, i, n) {
      if NoRename(ws, acts, n + 1, k) {
        NamesStay(ws, acts, i, n);
        RenamePublishes(ws, acts, n);
        NamesStay(ws, acts, n + 1, k);
      } else {
        RenamedAway(ws, acts, i, n, k, f);
      }
    } else {
      var j := FirstRename(ws, acts, i, n);
      RenamedAway(ws, acts, i, j, k, f);
    }
  }

  /** While the temporary name leads to `f` every open touches it; afterwards only writes through old descriptors do. */
  lemma TouchesIff(ws: seq<World>, acts: seq<Action>, v: nat, n: nat, k: nat, f: nat)
    requires |ws| == |acts| + 1 && v < n < k <= |acts| && acts[n].RenameTemp?
    requires forall j | v < j < n :: ws[j].disk.temp == Some(f)
    requires forall j | n < j < k :: ws[j].disk.temp != Some(f)
    ensures Untouched(ws, acts, v + 1, k, f) <==>
              && (forall j | v < j < n :: !acts[j].OpenTemp?)
              && (forall j | v < j < k && acts[j].WriteTemp? && ws[j].At(acts[j].t).Opened? ::
                  ws[j].At(acts[j].t).fd != f)
  {
    if Untouched(ws, acts, v + 1, k, f) {
      forall j | v < j < k
        ensures j < n ==> !acts[j].OpenTemp?
        ensures acts[j].WriteTemp? && ws[j].At(acts[j].t).Opened? ==> ws[j].At(acts[j].t).fd != f
      {
        assert !Touches(ws[j], acts[j], f);
      }
    }
  }

  /** The file holds a rotation's token exactly when the interleaving left it alone. */
  lemma StoredIffUndisturbed(ws: seq<World>, acts: seq<Action>, o: nat, v: nat, n: nat, k: nat, t: Tid, token: Token,
      f: nat)
    requires IsRun(ws, acts) && Rotation(ws, acts, o, v, n, t, token, f) && n < k < |ws|
    ensures Stored(ws[k].disk) == token <==> Undisturbed(ws, acts, o, v, n, k, f)
  {
    HeldSinceWrite(ws, acts, v, t, token, f, k);
    OpenNames(ws, acts, o, v, n, t, token, f);
    NamedIff(ws, acts, o + 1, n, k, f);
    if NoRename(ws, acts, o + 1, n) {
      TempThroughout(ws, acts, o + 1, n, k, f);
      TouchesIff(ws, acts, v, n, k, f);
    }
  }

  lemma TempThroughout(ws: seq<World>, acts: seq<Action>, i: nat, n: nat, k: nat, f: nat)
    requires IsRun(ws, acts) && i <= n < k < |ws| && ws[i].disk.temp == Some(f) && NoRename(ws, acts, i, n)
        && Renames(ws[n], acts[n])
    ensures forall j | i <= j <= n :: ws[j].disk.temp == Some(f)
    ensures forall j | n < j < k :: ws[j].disk.temp != Some(f)
  {
    forall j | i <= j <= n
      ensures ws[j].disk.temp == Some(f)
    {
      NamesStay(ws, acts, i, j);
    }
    RenamePublishes(ws, acts, n);
    forall j | n < j < k
      ensures ws[j].disk.temp != Some(f)
    {
      NeverNamedAgain(ws, acts, n + 1, j, f);
    }
  }

  /**
   A crash and restart at any point of any run: the token of a rotation that
   wrote it is the accepted primary afterwards exactly when the interleaving
   left it alone.
   */
  lemma RestartKeepsReturned(ws: seq<World>, acts: seq<Action>, o: nat, v: nat, n: nat, k: nat, t: Tid, token: Token,
      f: nat)
    requires IsRun(ws, acts) && Rotation(ws, acts, o, v, n, t, token, f) && n < k < |ws|
    ensures Apply(ws[k], Restart).Resolve(token) == Some(CURRENT) <==> Undisturbed(ws, acts, o, v, n, k, f)
  {
    StoredIffUndisturbed(ws, acts, o, v, n, k, t, token, f);
    assert Apply(ws[k], Restart).access == map[];
  }

  // ----- every returned token has such a rotation behind it

  lemma {:induction false} OpenedSince(ws: seq<World>, acts: seq<Action>, k: nat, t: Tid) returns (o: nat)
    requires IsRun(ws, acts) && k < |ws| && ws[k].At(t).Opened?
    ensures o < k && acts[o] == OpenTemp(t) && forall x | o < x <= k :: ws[x].At(t) == ws[k].At(t)
  {
    assert StepAt(ws, acts, k - 1);
    if acts[k - 1] == OpenTemp(t) {
      o := k - 1;
    } else {
      assert ws[k - 1].At(t) == ws[k].At(t);
      o := OpenedSince(ws, acts, k - 1, t);
    }
  }

  lemma {:induction false} WrittenSince(ws: seq<World>, acts: seq<Action>, k: nat, t: Tid) returns (v: nat)
    requires IsRun(ws, acts) && k < |ws| && ws[k].At(t).Written?
    ensures v < k && acts[v] == WriteTemp(t) && forall x | v < x <= k :: ws[x].At(t) == ws[k].At(t)
    ensures ws[v].At(t).Opened? && ws[v].At(t).newToken == ws[k].At(t).newToken && ws[v].At(t).fd == ws[k].At(t).fd
  {
    assert StepAt(ws, acts, k - 1);
    if acts[k - 1] == WriteTemp(t) {
      v := k - 1;
    } else {
      assert ws[k - 1].At(t) == ws[k].At(t);
      v := WrittenSince(ws, acts, k - 1, t);
    }
  }

  lemma {:induction false} PersistedSince(ws: seq<World>, acts: seq<Action>, k: nat, t: Tid) returns (n: nat)
    requires IsRun(ws, acts) && k < |ws| && ws[k].At(t).Persisted?
    ensures n < k && acts[n] == RenameTemp(t) && Renames(ws[n], acts[n])
    ensures ws[n].At(t).Written? && ws[n].At(t).newToken == ws[k].At(t).newToken
  {
    assert StepAt(ws, acts, k - 1);
    if acts[k - 1] == RenameTemp(t) {
      n := k - 1;
    } else {
      assert ws[k - 1].At(t) == ws[k].At(t);
      n := PersistedSince(ws, acts, k - 1, t);
    }
  }

  /** A thread about to swap has opened, written and renamed. */
  lemma RotationBehind(ws: seq<World>, acts: seq<Action>, k: nat, t: Tid) returns (o: nat, v: nat, n: nat, f: nat)
    requires IsRun(ws, acts) && k < |ws| && ws[k].At(t).Persisted?
    ensures n < k && Rotation(ws, acts, o, v, n, t, ws[k].At(t).newToken, f)
  {
    n := PersistedSince(ws, acts, k, t);
    v := WrittenSince(ws, acts, n, t);
    o := OpenedSince(ws, acts, v, t);
    f := ws[n].At(t).fd;
  }

  // ----- file and memory

  /** Nothing replaces the primary in these steps. */
  ghost predicate NoInstall(ws: seq<World>, acts: seq<Action>, from: int, to: int)
    requires |ws| == |acts| + 1 && 0 <= from && to <= |acts|
  {
    forall j | from <= j < to :: !acts[j].Swap? && !acts[j].Restart?
  }

  lemma {:induction false} CurrentStays(ws: seq<World>, acts: seq<Action>, i: nat, k: nat)
    requires IsRun(ws, acts) && i <= k < |ws| && NoInstall(ws, acts, i, k)
    ensures ws[k].primary.current == ws[i].primary.current
    decreases k - i
  {
    if i < k {
      CurrentStays(ws, acts, i, k - 1);
      assert StepAt(ws, acts, k - 1);
    }
  }

  /**
   Any overlap allowed. While the token installed by a swap is the primary, file
   and memory agree exactly when the interleaving left that rotation's file alone.
   */
  lemma AgreeIffUndisturbed(ws: seq<World>, acts: seq<Action>, s: nat, k: nat, t: Tid)
    returns (o: nat, v: nat, n: nat, f: nat)
    requires IsRun(ws, acts) && s < k < |ws| && acts[s] == Swap(t) && NoInstall(ws, acts, s + 1, k)
    ensures n < s && Rotation(ws, acts, o, v, n, t, ws[k].primary.current, f)
    ensures Stored(ws[k].disk) == ws[k].primary.current <==> Undisturbed(ws, acts, o, v, n, k, f)
  {
    assert StepAt(ws, acts, s);
    CurrentStays(ws, acts, s + 1, k);
    o, v, n, f := RotationBehind(ws, acts, s, t);
    StoredIffUndisturbed(ws, acts, o, v, n, k, t, ws[k].primary.current, f);
  }

  /** A file nobody can reach any more except by the name `api.token` keeps what it holds. */
  ghost predicate NoDescriptor(w: World, f: nat) {
    w.disk.temp != Some(f) && f < |w.disk.files| && forall t | t in w.pcs && Writing(w.pcs[t]) :: w.pcs[t].fd != f
  }

  lemma StepNoDescriptor(w: World, a: Action, f: nat)
    requires Enabled(w, a) && NoDescriptor(w, f)
    ensures NoDescriptor(Apply(w, a), f) && Apply(w, a).disk.files[f] == w.disk.files[f]
  {
  }

  lemma {:induction false} NoDescriptorAgain(ws: seq<World>, acts: seq<Action>, i: nat, k: nat, f: nat)
    requires IsRun(ws, acts) && i <= k < |ws| && NoDescriptor(ws[i], f)
    ensures NoDescriptor(ws[k], f) && ws[k].disk.files[f] == ws[i].disk.files[f]
    decreases k - i
  {
    if i < k {
      NoDescriptorAgain(ws, acts, i, k - 1, f);
      assert StepAt(ws, acts, k - 1);
      StepNoDescriptor(ws[k - 1], acts[k - 1], f);
    }
  }

  ghost predicate FilesDistinct(disk: Disk) {
    forall i, j | 0 <= i < j < |disk.files| && disk.files[i] != [] :: disk.files[i] != disk.files[j]
  }

  lemma StepFilesDistinct(w: World, a: Action)
    requires Enabled(w, a) && RotationsApart(w) && FilesDistinct(w.disk)
    ensures FilesDistinct(Apply(w, a).disk)
  {
    if a.WriteTemp? {
      assert w.At(a.t).newToken !in w.disk.files;
    }
  }

  lemma {:induction false} RunsFilesDistinct(ws: seq<World>, acts: seq<Action>, k: nat)
    requires IsRun(ws, acts) && k < |ws|
    ensures FilesDistinct(ws[k].disk)
  {
    if k > 0 {
      RunsFilesDistinct(ws, acts, k - 1);
      RunsRotationsApart(ws, acts, k - 1);
      assert StepAt(ws, acts, k - 1);
      StepFilesDistinct(ws[k - 1], acts[k - 1]);
    }
  }

  // ----- when the file is empty

  /** Nobody writes through a descriptor of file `f` in these steps. */
  ghost predicate NoWriteInto(ws: seq<World>, acts: seq<Action>, from: int, to: int, f: nat)
    requires |ws| == |acts| + 1 && 0 <= from && to <= |acts|
  {
    forall x | from <= x < to && acts[x].WriteTemp? && ws[x].At(acts[x].t).Opened? :: ws[x].At(acts[x].t).fd != f
  }

  /** Rename `n` published a file that some open had emptied and into which nobody wrote since, up to `k`. */
  ghost predicate LeftEmpty(ws: seq<World>, acts: seq<Action>, n: nat, k: nat)
    requires |ws| == |acts| + 1 && n < k <= |acts|
  {
    exists j :: 0 <= j < n && acts[j].OpenTemp? && NoRename(ws, acts, j + 1, n)
                && NoWriteInto(ws, acts, j + 1, k, ws[k].disk.name)
  }

  /** The open that last emptied the file the temporary name leads to. */
  lemma {:induction false} LastOpen(ws: seq<World>, acts: seq<Action>, n: nat, f: nat) returns (j: nat)
    requires IsRun(ws, acts) && n < |ws| && ws[n].disk.temp == Some(f)
    ensures j < n && acts[j].OpenTemp? && NoRename(ws, acts, j + 1, n)
    ensures forall x | j < x < n :: !acts[x].OpenTemp?
    ensures f < |ws[j + 1].disk.files| && ws[j + 1].disk.files[f] == []
  {
    assert StepAt(ws, acts, n - 1);
    if acts[n - 1].OpenTemp? {
      j := n - 1;
    } else {
      assert !Renames(ws[n - 1], acts[n - 1]) && ws[n - 1].disk.temp == Some(f);
      j := LastOpen(ws, acts, n - 1, f);
    }
  }

  lemma StepSinceEmptied(w: World, a: Action, f: nat)
    requires Enabled(w, a) && RotationsApart(w) && f < |w.disk.files| && !(a.OpenTemp? && w.disk.temp == Some(f))
    ensures var d := Apply(w, a).disk;
        f < |d.files| && (d.files[f] == [] <==> w.disk.files[f] == [] && !Touches(w, a, f))
  {
    if a.WriteTemp? {
      assert New(w, Pending(w.At(a.t)).value);
    }
  }

  /** A file that was empty and is not emptied again is empty until the first write into it. */
  lemma {:induction false} SinceEmptied(ws: seq<World>, acts: seq<Action>, i: nat, k: nat, f: nat)
    requires IsRun(ws, acts) && i <= k < |ws| && f < |ws[i].disk.files| && ws[i].disk.files[f] == []
    requires forall x | i <= x < k && acts[x].OpenTemp? :: ws[x].disk.temp != Some(f)
    ensures f < |ws[k].disk.files| && (ws[k].disk.files[f] == [] <==> NoWriteInto(ws, acts, i, k, f))
    decreases k - i
  {
    if i < k {
      SinceEmptied(ws, acts, i, k - 1, f);
      RunsRotationsApart(ws, acts, k - 1);
      assert StepAt(ws, acts, k - 1);
      StepSinceEmptied(ws[k - 1], acts[k - 1], f);
    }
  }

  /** The last rename decides: the file is empty iff it published an emptied file that nobody has written into since. */
  lemma EmptyIff(ws: seq<World>, acts: seq<Action>, n: nat, k: nat)
    requires IsRun(ws, acts) && n < k < |ws| && Renames(ws[n], acts[n]) && NoRename(ws, acts, n + 1, k)
    ensures Stored(ws[k].disk) == [] <==> LeftEmpty(ws, acts, n, k)
  {
    var f := ws[n].disk.temp.value;
    RenamePublishes(ws, acts, n);
    NamesStay(ws, acts, n + 1, k);
    var last := LastOpen(ws, acts, n, f);
    forall x | last + 1 <= x < k && acts[x].OpenTemp?
      ensures ws[x].disk.temp != Some(f)
    {
      NeverNamedAgain(ws, acts, n + 1, x, f);
    }
    SinceEmptied(ws, acts, last + 1, k, f);
    if j :| 0 <= j < n && acts[j].OpenTemp? && NoRename(ws, acts, j + 1, n) && NoWriteInto(ws, acts, j + 1, k, f) {
      assert j <= last;
    }
  }

  lemma {:induction false} LastRename(ws: seq<World>, acts: seq<Action>, i: nat, k: nat) returns (n: nat)
    requires |ws| == |acts| + 1 && i <= k <= |acts| && !NoRename(ws, acts, i, k)
    ensures i <= n < k && Renames(ws[n], acts[n]) && NoRename(ws, acts, n + 1, k)
    decreases k - i
  {
    if Renames(ws[k - 1], acts[k - 1]) {
      n := k - 1;
    } else {
      n := LastRename(ws, acts, i, k - 1);
    }
  }

  /** Some rename since world `i` is the last one and left the file empty. */
  ghost predicate EmptiedSince(ws: seq<World>, acts: seq<Action>, i: nat, k: nat)
    requires |ws| == |acts| + 1 && i <= k <= |acts|
  {
    exists n :: i <= n < k && Renames(ws[n], acts[n]) && NoRename(ws, acts, n + 1, k) && LeftEmpty(ws, acts, n, k)
  }

  lemma EmptiedSinceIff(ws: seq<World>, acts: seq<Action>, i: nat, k: nat)
    requires IsRun(ws, acts) && i <= k < |ws| && !NoRename(ws, acts, i, k)
    ensures Stored(ws[k].disk) == [] <==> EmptiedSince(ws, acts, i, k)
  {
    var n := LastRename(ws, acts, i, k);
    EmptyIff(ws, acts, n, k);
    if m :| i <= m < k && Renames(ws[m], acts[m]) && NoRename(ws, acts, m + 1, k) && LeftEmpty(ws, acts, m, k) {
      EmptyIff(ws, acts, m, k);
    }
  }

  /**
   At any point of any run the file is empty, so that a restart locks every
   caller out, exactly when the last rename published an emptied file that nobody
   has written into since, or there was no rename and the file began empty.
   */
  lemma LockedOutIff(ws: seq<World>, acts: seq<Action>, k: nat)
    requires IsRun(ws, acts) && k < |ws|
    ensures Apply(ws[k], Restart).primary.current == []
      <==> EmptiedSince(ws, acts, 0, k) || (NoRename(ws, acts, 0, k) && ws[0].primary.current == [])
  {
    if NoRename(ws, acts, 0, k) {
      NoDescriptorAgain(ws, acts, 0, k, 0);
      NamesStay(ws, acts, 0, k);
    } else {
      EmptiedSinceIff(ws, acts, 0, k);
    }
  }

  /**
   The other case: while the primary is the one a start or restart read, file and
   memory agree until the first rename succeeds, and then again only if both are
   empty.
   */
  lemma StartAgreesIff(ws: seq<World>, acts: seq<Action>, i: nat, k: nat)
    requires IsRun(ws, acts) && i <= k < |ws| && (i == 0 || acts[i - 1].Restart?) && NoInstall(ws, acts, i, k)
    ensures Stored(ws[k].disk) == ws[k].primary.current
      <==> NoRename(ws, acts, i, k) || (ws[i].primary.current == [] && EmptiedSince(ws, acts, i, k))
  {
    assert i > 0 ==> StepAt(ws, acts, i - 1);
    var f := ws[i].disk.name;
    CurrentStays(ws, acts, i, k);
    NoDescriptorAgain(ws, acts, i, k, f);
    if NoRename(ws, acts, i, k) {
      NamesStay(ws, acts, i, k);
    } else {
      EmptiedSinceIff(ws, acts, i, k);
      RunsFilesDistinct(ws, acts, k);
      var j := FirstRename(ws, acts, i, k);
      RenamedAwayFrom(ws, acts, i, j, k, f);
    }
  }

  lemma RenamedAwayFrom(ws: seq<World>, acts: seq<Action>, i: nat, j: nat, k: nat, f: nat)
    requires IsRun(ws, acts) && i <= j < k < |ws| && NoDescriptor(ws[i], f) && Renames(ws[j], acts[j])
    ensures ws[k].disk.name != f
  {
    NoDescriptorAgain(ws, acts, i, j, f);
    RenamePublishes(ws, acts, j);
    NoDescriptorAgain(ws, acts, i, j + 1, f);
    NeverNamedAgain(ws, acts, j + 1, k, f);
  }

  // ----- writes one at a time

  /** At most one thread is between its open and its rename. */
  ghost predicate OneWriter(w: World) {
    forall t, u | t in w.pcs && u in w.pcs && Writing(w.pcs[t]) && Writing(w.pcs[u]) :: t == u
  }

  /** A writing thread steps on its own, so nobody opens, writes or renames beside it. */
  lemma AloneWriting(ws: seq<World>, acts: seq<Action>, j: nat, t: Tid)
    requires IsRun(ws, acts) && j < |acts| && OneWriter(ws[j]) && OneWriter(ws[j + 1])
    requires (ws[j].At(t).Opened? && ws[j + 1].At(t).Opened?) || (ws[j].At(t).Written? && ws[j + 1].At(t).Written?)
    ensures !acts[j].OpenTemp? && !acts[j].WriteTemp? && !acts[j].RenameTemp?
  {
    assert StepAt(ws, acts, j);
    var w, w', a := ws[j], ws[j + 1], acts[j];
    assert t in w.pcs && t in w'.pcs && Writing(w.pcs[t]) && Writing(w'.pcs[t]);
    if a.OpenTemp? {
      assert Writing(w'.pcs[a.t]);
    } else if a.WriteTemp? || a.RenameTemp? {
      assert Writing(w.pcs[a.t]);
    }
  }

  /**
   When the writes of the token file do not overlap in time, whatever the swaps
   do, a token that was written survives exactly until the next write completes.
   */
  lemma SeparateWritesSurviveIff(ws: seq<World>, acts: seq<Action>, o: nat, v: nat, n: nat, k: nat, t: Tid,
      token: Token, f: nat)
    requires IsRun(ws, acts) && Rotation(ws, acts, o, v, n, t, token, f) && n < k < |ws|
    requires forall j | 0 <= j < |ws| :: OneWriter(ws[j])
    ensures Undisturbed(ws, acts, o, v, n, k, f) <==> NoRename(ws, acts, n + 1, k)
  {
    forall j | o < j < n
      ensures j == v || (!acts[j].OpenTemp? && !acts[j].WriteTemp? && !acts[j].RenameTemp?)
    {
      if j != v {
        AloneWriting(ws, acts, j, t);
      }
    }
    NoWriterLeft(ws, acts, n, t);
    forall j | n < j < k
      ensures NoDescriptor(ws[j], f)
    {
      NoDescriptorAfter(ws, acts, o, v, n, j, t, token, f);
    }
  }

  lemma NoWriterLeft(ws: seq<World>, acts: seq<Action>, n: nat, t: Tid)
    requires IsRun(ws, acts) && n < |acts| && acts[n] == RenameTemp(t) && OneWriter(ws[n])
    ensures var w := ws[n + 1]; forall u | u in w.pcs :: !Writing(w.pcs[u])
  {
    assert StepAt(ws, acts, n);
  }

  lemma NoDescriptorAfter(ws: seq<World>, acts: seq<Action>, o: nat, v: nat, n: nat, j: nat, t: Tid, token: Token,
      f: nat)
    requires IsRun(ws, acts) && Rotation(ws, acts, o, v, n, t, token, f) && n < j < |ws| && OneWriter(ws[n])
    ensures NoDescriptor(ws[j], f)
  {
    NoWriterLeft(ws, acts, n, t);
    RenamePublishes(ws, acts, n);
    RunsRotationsApart(ws, acts, n);
    assert ws[n].At(t).fd == f;
    NoDescriptorAgain(ws, acts, n + 1, j, f);
  }

  // ----- what overlapping writes can do

  /**
   The steps both runs below begin with: two rotations revoke and draw, the first
   opens and writes, the second opens.
   */
  lemma SecondOpensUnderFirst(first: Token, a: Token, b: Token, now: Time) returns (ws: seq<World>, acts: seq<Action>)
    requires first != a && first != b && a != b && [] !in {a, b}
    ensures IsRun(ws, acts) && |acts| == 7 && acts[4..] == [OpenTemp(0), WriteTemp(0), OpenTemp(1)]
    ensures ws[0] == Init(first, now)
    ensures ws[7].disk == Directory([first, []], Some(1), 0) && ws[7].primary.current == first
    ensures ws[7].At(0) == Written(a, 0, 0, 1) && ws[7].At(1) == Opened(b, 0, 0, 1)
  {
    ws, acts := TwoRotations(first, a, b, now);
    var w4 := ws[4];
    var w5 := Apply(w4, OpenTemp(0));
    OneStep(ws, acts, OpenTemp(0), w5);
    ws, acts := ws + [w5], acts + [OpenTemp(0)];
    assert w5.disk.files == [first, []] && w5.At(0) == Opened(a, 0, 0, 1) && ws[5] == w5;
    var w6 := Apply(w5, WriteTemp(0));
    OneStep(ws, acts, WriteTemp(0), w6);
    ws, acts := ws + [w6], acts + [WriteTemp(0)];
    assert w6.disk.files == [first, a] && w6.At(1) == Revoked(b, 0, 0) && ws[6] == w6;
    var w7 := Apply(w6, OpenTemp(1));
    OneStep(ws, acts, OpenTemp(1), w7);
    ws, acts := ws + [w7], acts + [OpenTemp(1)];
    assert w7.disk.files == [first, []];
  }

  /** The first rename then publishes the emptied file and its rotation returns; a restart finds the empty string. */
  lemma EmptyFileRun(first: Token, a: Token, b: Token, now: Time) returns (ws: seq<World>, acts: seq<Action>)
    requires first != a && first != b && a != b && [] !in {a, b}
    ensures IsRun(ws, acts) && |acts| == 9 && acts[7] == RenameTemp(0) && acts[8] == Swap(0)
    ensures ws[0] == Init(first, now) && ws[9].primary.current == a
    ensures Stored(ws[9].disk) == [] && Apply(ws[9], Restart).primary.current == []
    ensures ws[9].At(1) == Opened(b, 0, 0, 1) && ws[9].disk == Directory([first, []], None, 1) && ws[9].At(0) == Idle
  {
    ws, acts := SecondOpensUnderFirst(first, a, b, now);
    var w8 := Apply(ws[7], RenameTemp(0));
    OneStep(ws, acts, RenameTemp(0), w8);
    ws, acts := ws + [w8], acts + [RenameTemp(0)];
    assert w8.At(0) == Persisted(a, 0, 0) && ws[8] == w8;
    var w9 := Apply(w8, Swap(0));
    OneStep(ws, acts, Swap(0), w9);
    ws, acts := ws + [w9], acts + [Swap(0)];
  }

  /**
   Without the crash the second rotation writes into the published file and fails:
   the file holds its token, the memory the first one's.
   */
  lemma ForeignTokenRun(first: Token, a: Token, b: Token, now: Time) returns (ws: seq<World>, acts: seq<Action>)
    requires first != a && first != b && a != b && [] !in {a, b}
    ensures IsRun(ws, acts) && |acts| == 11 && ws[0] == Init(first, now)
    ensures ws[11].At(0) == Idle && ws[11].At(1) == Idle
    ensures Stored(ws[11].disk) == b && ws[11].primary.current == a
  {
    ws, acts := EmptyFileRun(first, a, b, now);
    var w9 := ws[9];
    var w10 := Apply(w9, WriteTemp(1));
    OneStep(ws, acts, WriteTemp(1), w10);
    ws, acts := ws + [w10], acts + [WriteTemp(1)];
    assert w10.disk.files == [first, b] && w10.At(1) == Written(b, 0, 0, 1) && ws[10] == w10;
    var w11 := Apply(w10, RenameTemp(1));
    OneStep(ws, acts, RenameTemp(1), w11);
    ws, acts := ws + [w11], acts + [RenameTemp(1)];
  }

  lemma TwoRotations(first: Token, a: Token, b: Token, now: Time) returns (ws: seq<World>, acts: seq<Action>)
    requires first != a && first != b && a != b && [] !in {a, b}
    ensures IsRun(ws, acts) && |acts| == 4 && ws[0] == Init(first, now)
    ensures acts[1] == BeginRotation(0, a, 0) && acts[3] == BeginRotation(1, b, 0)
    ensures ws[4].disk == Directory([first], None, 0) && ws[4].primary == PrimaryState(first, None)
    ensures ws[4].At(0) == Revoked(a, 0, 0) && ws[4].At(1) == Revoked(b, 0, 0)
  {
    ws, acts := RequestRotation([Init(first, now)], [], 0, first, a, 0);
    ws, acts := RequestRotation(ws, acts, 1, first, b, 0);
  }

  /** Separate writes are not enough for memory and file to agree: the swaps may come in the other order. */
  lemma OverlapCanDisagree(first: Token, a: Token, b: Token, now: Time) returns (ws: seq<World>, acts: seq<Action>)
    requires first != a && first != b && a != b && [] !in {a, b}
    ensures IsRun(ws, acts) && |acts| == 12 && ws[0] == Init(first, now)
    ensures ws[12].At(0) == Idle && ws[12].At(1) == Idle
    ensures Stored(ws[12].disk) == b && ws[12].primary.current == a
  {
    ws, acts := TwoRotations(first, a, b, now);
    ws, acts := WriteToken(ws, acts, 0, a, 0);
    ws, acts := WriteToken(ws, acts, 1, b, 0);
    var w10 := ws[10];
    assert w10.At(0) == Persisted(a, 0, 0);
    var w11 := Apply(w10, Swap(1));
    OneStep(ws, acts, Swap(1), w11);
    ws, acts := ws + [w11], acts + [Swap(1)];
    assert w11.At(0) == Persisted(a, 0, 0) && ws[11] == w11;
    var w12 := Apply(w11, Swap(0));
    OneStep(ws, acts, Swap(0), w12);
    ws, acts := ws + [w12], acts + [Swap(0)];
  }
}
