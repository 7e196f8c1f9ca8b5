/**
 The updater's install, update and rollback of the daemon binary
 (src/updater/installer.rs) over a small file system. Every method records in
 `trail` each state the disk passes through, so that a statement about the new
 part of the trail is a statement about every point at which the machine may
 die. Opening and writing may stop half-way; only a rename is atomic.
 */
module Installer {
  import opened Common

  /** `asc`, `asc.previous` and the `.asc.tmp` beside `asc`. */
  datatype Slot = Asc | Previous | Tmp

  datatype File = File(data: seq<byte>, executable: bool)

  type Files = map<Slot, File>

  /** How one file operation goes wrong, if it does. */
  datatype Fault = NoFault | AtOpen | AfterBytes(n: nat)

  // ----- releases

  /** SHA-256, taken as injective on the archives seen. */
  datatype Checksum = Sha256(archive: Archive)

  /**
   The entries of a `.tar.gz` in order; what cannot be decoded shows as a broken
   entry, an unreadable file as one without data.
   */
  datatype ArchiveEntry = Entry(name: string, data: Option<seq<byte>>) | Broken

  type Archive = seq<ArchiveEntry>

  datatype Release = Release(tag: string, archive: Option<Archive>, checksum: Option<Checksum>)

  /** The first entry of that name, unless something on the way there is broken. */
  function Extract(archive: Archive, wanted: string): Option<seq<byte>> {
    if archive == [] || archive[0].Broken? then None
    else if archive[0].name == wanted then archive[0].data
    else Extract(archive[1..], wanted)
  }

  /** Entry `i` is the first of that name and nothing before it is broken. */
  ghost predicate FoundAt(archive: Archive, wanted: string, i: int) {
    && 0 <= i < |archive| && archive[i].Entry? && archive[i].name == wanted
    && forall j | 0 <= j < i :: archive[j].Entry? && archive[j].name != wanted
  }

  lemma {:induction false} ExtractFindsFirst(archive: Archive, wanted: string)
    ensures forall i | FoundAt(archive, wanted, i) :: Extract(archive, wanted) == archive[i].data
    ensures Extract(archive, wanted).Some? ==> exists i :: FoundAt(archive, wanted, i)
  {
    if archive != [] && archive[0].Entry? && archive[0].name != wanted {
      ExtractFindsFirst(archive[1..], wanted);
      assert forall i | 0 < i < |archive| :: archive[i] == archive[1..][i - 1];
      assert forall i :: FoundAt(archive, wanted, i) <==> FoundAt(archive[1..], wanted, i - 1);
      if Extract(archive, wanted).Some? {
        var i :| FoundAt(archive[1..], wanted, i);
        assert FoundAt(archive, wanted, i + 1);
      }
    } else if archive != [] && archive[0].Entry? {
      assert FoundAt(archive, wanted, 0);
    }
  }

  datatype Error =
    | NoRelease | NotInstalled | BadVersion | NoBuild | NoChecksum | ChecksumMismatch | NoBinary | NoPrevious | Io

  /** `data` is the `asc` of an archive the release's checksum is of. */
  ghost predicate Genuine(release: Release, data: seq<byte>) {
    && release.archive.Some? && release.checksum == Some(Sha256(release.archive.value))
    && exists i :: FoundAt(release.archive.value, "asc", i) && release.archive.value[i].data == Some(data)
  }

  method FetchDaemonBinary(release: Release) returns (r: Result<seq<byte>, Error>)
    ensures r.Ok? ==> Genuine(release, r.value)
    ensures r.Ok? <==>
              && release.archive.Some? && release.checksum == Some(Sha256(release.archive.value))
              && exists i :: FoundAt(release.archive.value, "asc", i) && release.archive.value[i].data.Some?
    ensures r == Err(NoBuild) <==> release.archive == None
    ensures r == Err(NoChecksum) <==> release.archive.Some? && release.checksum == None
    ensures r == Err(ChecksumMismatch) <==>
              && release.archive.Some? && release.checksum.Some?
              && release.checksum.value != Sha256(release.archive.value)
    ensures r.Ok? <==> Verified(release).Some?
    ensures r.Ok? ==> Verified(release) == Some(r.value)
  {
    if release.archive == None {
      return Err(NoBuild);
    }
    if release.checksum == None {
      return Err(NoChecksum);
    }
    if Sha256(release.archive.value) != release.checksum.value {
      return Err(ChecksumMismatch);
    }
    var binary := Extract(release.archive.value, "asc");
    ExtractFindsFirst(release.archive.value, "asc");
    return if binary.Some? then Ok(binary.value) else Err(NoBinary);
  }

  /** The bytes a release stands for: `asc` out of the archive its checksum is of. */
  function Verified(release: Release): Option<seq<byte>> {
    if release.archive.Some? && release.checksum == Some(Sha256(release.archive.value))
    then Extract(release.archive.value, "asc")
    else None
  }

  /** A release is verified exactly when some bytes are its genuine `asc`. */
  lemma VerifiedIsGenuine(release: Release)
    ensures Verified(release).Some? <==> exists data :: Genuine(release, data)
    ensures Verified(release).Some? ==> Genuine(release, Verified(release).value)
  {
    if release.archive.Some? {
      ExtractFindsFirst(release.archive.value, "asc");
      if Verified(release).Some? {
        var i :| FoundAt(release.archive.value, "asc", i);
        assert Genuine(release, Verified(release).value);
      }
      if data :| Genuine(release, data) {
        var i :| FoundAt(release.archive.value, "asc", i) && release.archive.value[i].data == Some(data);
      }
    }
  }

  /** One leading `v` is no part of a version. */
  lemma WithoutVDropsOne(version: string)
    ensures WithoutV("v" + version) == version
    ensures version == "" || version[0] != 'v' ==> WithoutV(version) == version
  {
  }

  function WithoutV(raw: string): string {
    if raw != "" && raw[0] == 'v' then raw[1..] else raw
  }

  /** `version` places a SemVer string in the total order of precedence, or fails to parse it. */
  function IsStrictlyNewer(version: string -> Option<real>, installed: string, available: string): Result<bool, Error> {
    var a, i := version(WithoutV(available)), version(WithoutV(installed));
    if a == None || i == None then Err(BadVersion) else Ok(a.value > i.value)
  }

  // ----- the disk

  /** Nothing but `slot` differs. */
  ghost predicate OnlyAt(slot: Slot, a: Files, b: Files) {
    forall s | s != slot :: (s in a <==> s in b) && (s in a ==> a[s] == b[s])
  }

  /** A file holding some first part of `data`. */
  ghost predicate Torn(file: File, data: seq<byte>) {
    file.data <= data
  }

  /** Some first part of `data` is in `slot`, and nothing else has changed. */
  ghost predicate Partway(slot: Slot, before: Files, point: Files, data: seq<byte>) {
    OnlyAt(slot, before, point) && slot in point && Torn(point[slot], data)
  }

  ghost predicate AllPartway(slot: Slot, before: Files, trail: seq<Files>, start: nat, data: seq<byte>) {
    forall i | start <= i < |trail| :: Partway(slot, before, trail[i], data)
  }

  lemma OnePartway(slot: Slot, before: Files, data: seq<byte>, n: nat, executable: bool)
    requires n <= |data|
    ensures Partway(slot, before, before[slot := File(data[..n], executable)], data)
  {
  }

  class Disk {
    var files: Files
    ghost var trail: seq<Files>

    constructor (files: Files)
      ensures this.files == files && trail == [files]
    {
      this.files, trail := files, [files];
    }

    ghost predicate Valid()
      reads this
    {
      trail != [] && trail[|trail| - 1] == files
    }

    /** `fs::write`, and the writing half of `fs::copy`: truncate, then byte after byte. */
    method Write(slot: Slot, data: seq<byte>, mode: Option<bool>, fault: Fault) returns (ok: bool)
      requires Valid()
      modifies this
      ensures Valid() && old(trail) <= trail
      ensures ok <==> fault == NoFault
      ensures ok ==> slot in files && files[slot].data == data && OnlyAt(slot, old(files), files)
      ensures ok && mode.Some? ==> files[slot].executable == mode.value
      ensures ok && mode == None ==> files[slot].executable == (slot in old(files) && old(files)[slot].executable)
      ensures forall i | |old(trail)| <= i < |trail| :: Partway(slot, old(files), trail[i], data)
      ensures fault == AtOpen ==> trail == old(trail)
      ensures fault != AtOpen ==> |trail| > |old(trail)| && DataAt(trail[|old(trail)|], slot) == Some([])
    {
      if fault == AtOpen {
        return false;
      }
      var executable := if mode.Some? then mode.value else slot in files && files[slot].executable;
      ghost var before, start := files, |trail|;
      OnePartway(slot, before, data, 0, executable);
      Put(slot, File(data[..0], executable));
      var n := 0;
      while n < |data| && fault != AfterBytes(n)
        invariant 0 <= n <= |data| && old(trail) <= trail && Writing(slot, before, data, n, executable, start)
      {
        WriteNext(slot, data, n, executable, before, start);
        n := n + 1;
      }
      return fault == NoFault;
    }

    /** The first `n` bytes are written, and every state since `start` is on the way there. */
    ghost predicate Writing(slot: Slot, before: Files, data: seq<byte>, n: nat, executable: bool, start: nat)
      reads this
      requires n <= |data|
    {
      && Valid() && start < |trail| && files == before[slot := File(data[..n], executable)]
      && AllPartway(slot, before, trail, start, data) && DataAt(trail[start], slot) == Some([])
    }

    method WriteNext(slot: Slot, data: seq<byte>, n: nat, executable: bool, ghost before: Files, ghost start: nat)
      requires n < |data| && Writing(slot, before, data, n, executable, start)
      modifies this
      ensures old(trail) <= trail && Writing(slot, before, data, n + 1, executable, start)
    {
      OnePartway(slot, before, data, n + 1, executable);
      Put(slot, File(data[..n + 1], executable));
      assert files == before[slot := File(data[..n + 1], executable)];
    }

    method Put(slot: Slot, file: File)
      requires Valid()
      modifies this
      ensures Valid() && files == old(files)[slot := file] && trail == old(trail) + [files]
    {
      files := files[slot := file];
      trail := trail + [files];
    }

    method MakeExecutable(slot: Slot)
      requires Valid() && slot in files
      modifies this
      ensures Valid() && trail == old(trail) + [files]
      ensures files == old(files)[slot := old(files)[slot].(executable := true)]
    {
      files := files[slot := files[slot].(executable := true)];
      trail := trail + [files];
    }

    method Rename(source: Slot, target: Slot)
      requires Valid() && source in files && source != target
      modifies this
      ensures Valid() && trail == old(trail) + [files]
      ensures files == (old(files) - {source})[target := old(files)[source]]
    {
      files := (files - {source})[target := files[source]];
      trail := trail + [files];
    }

    method Remove(slot: Slot)
      requires Valid()
      modifies this
      ensures Valid() && trail == old(trail) + [files] && files == old(files) - {slot}
    {
      files := files - {slot};
      trail := trail + [files];
    }
  }

  /** Which of `write_binary`'s steps fails. */
  datatype BinaryFaults = BinaryFaults(mkdir: bool, write: Fault, chmod: bool, rename: bool)

  predicate Faultless(f: BinaryFaults) {
    !f.mkdir && f.write == NoFault && !f.chmod && !f.rename
  }

  /** Written aside, made executable, then renamed over the target: until the rename only the temporary file changes. */
  method WriteBinary(disk: Disk, data: seq<byte>, faults: BinaryFaults) returns (ok: bool)
    requires disk.Valid()
    modifies disk
    ensures disk.Valid() && old(disk.trail) <= disk.trail
    ensures ok <==> Faultless(faults)
    ensures ok ==> disk.files == Installed(old(disk.files), data)
    ensures !ok ==> OnlyAt(Tmp, old(disk.files), disk.files)
    ensures forall i | |old(disk.trail)| <= i < |disk.trail| ::
              OnlyAt(Tmp, old(disk.files), disk.trail[i]) || disk.trail[i] == Installed(old(disk.files), data)
  {
    if faults.mkdir {
      return false;
    }
    var written := disk.Write(Tmp, data, None, faults.write);
    if !written || faults.chmod {
      return false;
    }
    disk.MakeExecutable(Tmp);
    if faults.rename {
      return false;
    }
    disk.Rename(Tmp, Asc);
    assert disk.files == Installed(old(disk.files), data);
    return true;
  }

  /** `asc` replaced by complete, executable bytes, nothing left aside. */
  function Installed(files: Files, data: seq<byte>): Files {
    (files - {Tmp})[Asc := File(data, true)]
  }

  /** A completed update: the old binary kept whole, the new one in place. */
  function Updated(files: Files, data: seq<byte>): Files {
    Installed(if Asc in files then files[Previous := files[Asc]] else files, data)
  }

  datatype UpdateOutcome = UpToDate | Replaced | Failed(error: Error)

  /** Which of the update's steps fails. */
  datatype UpdateFaults = UpdateFaults(mkdir: bool, copy: Fault, binary: BinaryFaults)

  /**
   At every crash point: `asc` is untouched, or it is the complete verified
   binary and the old one is complete in `asc.previous`.
   */
  ghost predicate SafePoint(before: Files, point: Files, data: seq<byte>) {
    || ((Asc in point <==> Asc in before) && (Asc in before ==> point[Asc] == before[Asc]))
    || (Asc in point && point[Asc] == File(data, true)
        && (Asc in before ==> Previous in point && point[Previous].data == before[Asc].data))
  }

  /** Both versions are valid and the release's comes later; a leading `v` on either side is no part of it. */
  ghost predicate Newer(version: string -> Option<real>, installed: string, tag: string) {
    && Comparable(version, installed, tag)
    && version(WithoutV(installed)).value < version(WithoutV(tag)).value
  }

  ghost predicate Comparable(version: string -> Option<real>, installed: string, tag: string) {
    version(WithoutV(installed)).Some? && version(WithoutV(tag)).Some?
  }

  /** The same version is no update, nor is an older one, however the `v` is written. */
  lemma NewerExample(version: string -> Option<real>)
    requires version("1.0.0").Some? && version("1.1.0").Some? && version("1.0.0").value < version("1.1.0").value
    ensures Newer(version, "1.0.0", "v1.1.0") && Newer(version, "v1.0.0", "1.1.0")
    ensures !Newer(version, "v1.1.0", "1.0.0") && !Newer(version, "1.0.0", "v1.0.0")
  {
    assert "v1.1.0" == "v" + "1.1.0" && "v1.0.0" == "v" + "1.0.0";
    WithoutVDropsOne("1.0.0");
    WithoutVDropsOne("1.1.0");
  }

  /** There is a strictly newer release and its `asc` checks out. */
  ghost predicate Due(latest: Option<Release>, installed: Option<string>, version: string -> Option<real>) {
    && latest.Some? && installed.Some?
    && Newer(version, installed.value, latest.value.tag)
    && Verified(latest.value).Some?
  }

  method UpdateInner(
    disk: Disk, latest: Option<Release>, installed: Option<string>, version: string -> Option<real>,
    faults: UpdateFaults)
    returns (outcome: UpdateOutcome)
    requires disk.Valid()
    modifies disk
    ensures disk.Valid() && old(disk.trail) <= disk.trail
    ensures outcome == Replaced ==>
              Due(latest, installed, version) && disk.files == Updated(old(disk.files), Verified(latest.value).value)
    ensures Due(latest, installed, version) && !faults.mkdir && faults.copy == NoFault && Faultless(faults.binary) ==>
              outcome == Replaced
    ensures !Due(latest, installed, version) ==> disk.trail == old(disk.trail)
    ensures outcome == Replaced ==> latest.Some? && Asc in disk.files
                                    && Genuine(latest.value, disk.files[Asc].data) && disk.files[Asc].executable
    ensures latest.Some? && !(exists data :: Genuine(latest.value, data)) ==>
              outcome != Replaced && disk.trail == old(disk.trail)
    ensures forall i | |old(disk.trail)| <= i < |disk.trail| ::
              DataAt(disk.trail[i], Asc) == DataAt(old(disk.files), Asc)
              || (latest.Some? && Asc in disk.trail[i] && Genuine(latest.value, disk.trail[i][Asc].data))
    ensures outcome == UpToDate <==>
              && latest.Some? && installed.Some?
              && Comparable(version, installed.value, latest.value.tag)
              && !Newer(version, installed.value, latest.value.tag)
    ensures outcome.Failed? ==> (Asc in disk.files <==> Asc in old(disk.files))
                                && (Asc in disk.files ==> disk.files[Asc] == old(disk.files)[Asc])
    ensures latest.Some? && Verified(latest.value).Some? ==>
              forall i | |old(disk.trail)| <= i < |disk.trail| ::
                SafePoint(old(disk.files), disk.trail[i], Verified(latest.value).value)
    ensures outcome == Replaced && Asc in old(disk.files) ==>
              exists i :: |old(disk.trail)| <= i < |disk.trail| && OnlyAt(Previous, old(disk.files), disk.trail[i])
                          && DataAt(disk.trail[i], Previous) == Some([])
  {
    if latest == None {
      return Failed(NoRelease);
    }
    if installed == None {
      return Failed(NotInstalled);
    }
    var newer := IsStrictlyNewer(version, installed.value, latest.value.tag);
    if newer.Err? {
      return Failed(newer.error);
    }
    if !newer.value {
      return UpToDate;
    }
    VerifiedIsGenuine(latest.value);
    var fetched := FetchDaemonBinary(latest.value);
    if fetched.Err? {
      return Failed(fetched.error);
    }
    var done := Replace(disk, fetched.value, faults);
    return if done then Replaced else Failed(Io);
  }

  /** The second half of an update: the current binary is copied aside, then the new one takes its place. */
  method Replace(disk: Disk, data: seq<byte>, faults: UpdateFaults) returns (ok: bool)
    requires disk.Valid()
    modifies disk
    ensures disk.Valid() && old(disk.trail) <= disk.trail
    ensures ok ==> disk.files == Updated(old(disk.files), data)
    ensures !faults.mkdir && faults.copy == NoFault && Faultless(faults.binary) ==> ok
    ensures !ok ==> (Asc in disk.files <==> Asc in old(disk.files))
                    && (Asc in disk.files ==> disk.files[Asc] == old(disk.files)[Asc])
    ensures forall i | |old(disk.trail)| <= i < |disk.trail| :: SafePoint(old(disk.files), disk.trail[i], data)
    ensures ok && Asc in old(disk.files) ==>
              exists i :: |old(disk.trail)| <= i < |disk.trail| && OnlyAt(Previous, old(disk.files), disk.trail[i])
                          && DataAt(disk.trail[i], Previous) == Some([])
  {
    if Asc in disk.files {
      if faults.mkdir {
        return false;
      }
      var saved := disk.Write(Previous, disk.files[Asc].data, Some(disk.files[Asc].executable), faults.copy);
      if !saved {
        return false;
      }
    }
    ok := WriteBinary(disk, data, faults.binary);
    assert ok ==> disk.files == Updated(old(disk.files), data);
  }

  /** A completed rollback, or nothing to go back to. */
  function RolledBack(files: Files): Option<Files> {
    if Previous !in files then None
    else if Asc in files
    then Some(Installed(files, files[Previous].data)[Previous := File(files[Asc].data, files[Previous].executable)])
    else Some(Installed(files, files[Previous].data) - {Previous})
  }

  /** At every crash point of a rollback `asc` is the old current or the old previous, both complete. */
  ghost predicate SafeRollbackPoint(before: Files, point: Files)
    requires Previous in before
  {
    || ((Asc in point <==> Asc in before) && (Asc in before ==> point[Asc] == before[Asc])
        && Previous in point && point[Previous] == before[Previous])
    || (Asc in point && point[Asc] == File(before[Previous].data, true)
        && (Previous in point
            ==> point[Previous] == before[Previous] || (Asc in before && Torn(point[Previous], before[Asc].data))))
  }

  method Rollback(disk: Disk, binary: BinaryFaults, save: Fault) returns (outcome: Result<(), Error>)
    requires disk.Valid()
    modifies disk
    ensures disk.Valid() && old(disk.trail) <= disk.trail
    ensures Previous !in old(disk.files) ==> outcome == Err(NoPrevious) && disk.trail == old(disk.trail)
    ensures Previous in old(disk.files) ==> (outcome.Ok? <==> Faultless(binary) && save == NoFault)
    ensures outcome.Ok? ==> Some(disk.files) == RolledBack(old(disk.files))
    ensures Previous in old(disk.files) ==>
              forall i | |old(disk.trail)| <= i < |disk.trail| :: SafeRollbackPoint(old(disk.files), disk.trail[i])
    ensures outcome.Ok? && Asc in old(disk.files) ==>
              exists i :: |old(disk.trail)| <= i < |disk.trail| && DataAt(disk.trail[i], Previous) == Some([])
                          && DataAt(disk.trail[i], Asc) == Some(old(disk.files)[Previous].data)
  {
    if Previous !in disk.files {
      return Err(NoPrevious);
    }
    var previousData := disk.files[Previous].data;
    var currentData := if Asc in disk.files then Some(disk.files[Asc].data) else None;
    var placed := WriteBinary(disk, previousData, binary);
    if !placed {
      return Err(Io);
    }
    if currentData.Some? {
      ghost var first := |disk.trail|;
      var saved := disk.Write(Previous, currentData.value, None, save);
      if !saved {
        return Err(Io);
      }
      assert DataAt(disk.trail[first], Previous) == Some([]);
      assert disk.files == RolledBack(old(disk.files)).value;
    } else {
      if save != NoFault {
        return Err(Io);
      }
      disk.Remove(Previous);
    }
    return Ok(());
  }

  // ----- what the pair of operations gives

  function DataAt(files: Files, slot: Slot): Option<seq<byte>> {
    if slot in files then Some(files[slot].data) else None
  }

  /** One rollback after a completed update restores exactly the old bytes, and keeps the new ones to go back to. */
  lemma RollbackUndoesUpdate(files: Files, data: seq<byte>)
    requires Asc in files
    ensures var back := RolledBack(Updated(files, data));
      && back.Some? && DataAt(back.value, Asc) == DataAt(files, Asc) && back.value[Asc].executable
      && DataAt(back.value, Previous) == Some(data)
  {
  }

  /** Two rollbacks are the identity on the pair exactly when there is a current binary to keep. */
  lemma TwoRollbacksIff(files: Files)
    requires Previous in files
    ensures var once := RolledBack(files);
      && once.Some?
      && (Asc in files <==>
            && RolledBack(once.value).Some?
            && DataAt(RolledBack(once.value).value, Asc) == DataAt(files, Asc)
            && DataAt(RolledBack(once.value).value, Previous) == DataAt(files, Previous))
  {
  }

  /**
   Whatever point an update dies at, a rollback from there puts back the old
   bytes whenever the new ones had already taken their place.
   */
  lemma RollbackAfterCrash(before: Files, point: Files, data: seq<byte>)
    requires SafePoint(before, point, data) && Asc in before && Asc in point && point[Asc] != before[Asc]
    ensures RolledBack(point).Some? && DataAt(RolledBack(point).value, Asc) == DataAt(before, Asc)
  {
  }

  /**
   Not so while the backup is still being copied: `asc.previous` may be torn
   then, and a rollback installs it as it is. A rollback gives back the old
   bytes from there exactly when the copy was complete.
   */
  lemma RollbackDuringBackup(before: Files, point: Files)
    requires Asc in before && OnlyAt(Previous, before, point) && Previous in point
        && Torn(point[Previous], before[Asc].data)
    ensures RolledBack(point).Some?
    ensures DataAt(RolledBack(point).value, Asc) == DataAt(before, Asc)
        <==> |point[Previous].data| == |before[Asc].data|
  {
    var torn, whole := point[Previous].data, before[Asc].data;
    assert torn == whole[..|torn|] && whole[..|whole|] == whole;
  }

  /**
   Nor while a rollback saves the binary it replaced: from there a second
   rollback gives back the replaced bytes exactly when the save was complete.
   */
  lemma RollbackDuringSave(before: Files, point: Files)
    requires Asc in before && Previous in before && Asc in point && Previous in point
    requires point[Asc].data == before[Previous].data && Torn(point[Previous], before[Asc].data)
    ensures RolledBack(point).Some?
    ensures DataAt(RolledBack(point).value, Asc) == DataAt(before, Asc)
        <==> |point[Previous].data| == |before[Asc].data|
  {
    var torn, whole := point[Previous].data, before[Asc].data;
    assert torn == whole[..|torn|] && whole[..|whole|] == whole;
  }

  /**
   A crash just after the save was opened: the replaced binary is in neither file,
   and a rollback installs an empty one.
   */
  lemma TornSaveExample()
    ensures var before := map[Asc := File([1, 2], true), Previous := File([3], true)];
      var point := map[Asc := File([3], true), Previous := File([], true)];
      && SafeRollbackPoint(before, point) && DataAt(point, Asc) != DataAt(before, Asc)
      && RolledBack(point).Some? && DataAt(RolledBack(point).value, Asc) == Some([])
  {
  }

  /** A crash just after the backup was opened, then a rollback: `asc` is installed empty. */
  lemma TornBackupExample()
    ensures var before := map[Asc := File([1, 2], true)];
      var point := map[Asc := File([1, 2], true), Previous := File([], true)];
      && OnlyAt(Previous, before, point) && Torn(point[Previous], before[Asc].data)
      && RolledBack(point).Some? && DataAt(RolledBack(point).value, Asc) == Some([])
  {
  }

  /** With no current binary the first rollback removes the previous one, and the second finds nothing to go back to. */
  lemma MissingBinaryExample()
    ensures var files := map[Previous := File([1], true)];
      && RolledBack(files) == Some(map[Asc := File([1], true)]) && RolledBack(RolledBack(files).value) == None
  {
    var files := map[Previous := File([1], true)];
    assert RolledBack(files).value == map[Asc := File([1], true)];
  }
}
