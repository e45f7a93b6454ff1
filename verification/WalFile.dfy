/**
  The storage a database lives on, and the writer that appends to its write-ahead log.

  A `Volume` offers the system calls the engine makes; each may fail, and a write may be short or interrupted. It also
  carries, as ghost state, the run of the machine of module `Protocol` that has led to its present contents.
 */
module WalFile {
  import opened Prelude
  import opened WalRecord
  import opened SegmentNames
  import M = Manifest
  import opened Disk
  import opened Protocol
  import opened CrashSafety
  import opened ReachableStates

  datatype WriteOutcome = Written(count: nat) | Interrupted | WriteFailed

  /** "MANIFEST" */
  const MANIFEST: Name := [77, 65, 78, 73, 70, 69, 83, 84]

  /** "MANIFEST.tmp" */
  const MANIFEST_TEMPORARY: Name := [77, 65, 78, 73, 70, 69, 83, 84, 46, 116, 109, 112]

  lemma ManifestTemporaryIs()
    ensures MANIFEST_TEMPORARY == TemporaryOf(MANIFEST) && Temporary(MANIFEST_TEMPORARY) && !Temporary(MANIFEST)
  {
    assert MANIFEST_TEMPORARY[8..] == TEMPORARY;
    assert MANIFEST[4..][0] != TEMPORARY[0];
  }

  function WithWal(d: DiskImage, wal: Bytes): DiskImage {
    d.(wal := Some(wal))
  }

  /** The log has grown by the first `k` bytes of `record`. */
  ghost predicate TornAt(d: DiskImage, d': DiskImage, record: Bytes, k: nat) {
    k <= |record| && d' == WithWal(d, WalBytes(d) + record[..k])
  }

  ghost predicate Torn(d: DiskImage, d': DiskImage, record: Bytes) {
    exists k: nat :: TornAt(d, d', record, k)
  }

  /** Nothing but the file `temporary` differs. */
  ghost predicate OnlyTemporary(d: DiskImage, d': DiskImage, temporary: Name) {
    && d' == d.(files := d'.files)
    && forall n :: n != temporary ==> (n in d.files <==> n in d'.files) && (n in d.files ==> d'.files[n] == d.files[n])
  }

  /** From `d` on, all files of `names` have been removed, but for those that `refused` lists; no others are touched. */
  ghost predicate RemovedBut(d: DiskImage, d': DiskImage, names: set<Name>, refused: seq<Name>) {
    && d' == d.(files := d'.files)
    && (forall n :: n in d'.files ==> n in d.files && d'.files[n] == d.files[n] && (n in names ==> n in refused))
    && (forall n :: n in d.files && n !in names ==> n in d'.files)
    && (forall n :: n in refused ==> n in names)
  }

  /** Nothing but the named files differs. */
  ghost predicate FilesAlike(d: DiskImage, d': DiskImage, names: set<Name>) {
    forall n :: n !in names ==> (n in d'.files <==> n in d.files) && (n in d.files ==> d'.files[n] == d.files[n])
  }

  class Volume {
    var image: DiskImage
    /** Signals that will still interrupt a write. */
    var interrupts: nat
    /** System calls that have failed, but for removals, whose failure is ignored. */
    ghost var faults: nat
    /** The files whose removal has failed. */
    ghost var refused: seq<Name>
    /** The files whose bytes have not been synced since they were written. */
    ghost var unsynced: set<Name>
    /** Names have been created, replaced or removed since the directory was synced. */
    ghost var loose: bool
    ghost var states: seq<System>
    ghost var events: seq<Event>

    ghost predicate Recorded()
      reads this`states, this`events
    {
      Run(states, events)
    }

    ghost function Now(): System
      requires Recorded()
      reads this`states, this`events
    {
      states[|events|]
    }

    /** An empty directory. */
    constructor (interrupts: nat)
      ensures Recorded() && events == [] && Now() == Stopped(image) && Published()
    {
      image := DiskImage(None, 0, [], None, map[]);
      this.interrupts := interrupts;
      faults := 0;
      refused := [];
      unsynced := {};
      loose := false;
      states := [Stopped(DiskImage(None, 0, [], None, map[]))];
      events := [];
    }

    ghost method Record(e: Event, s: System)
      requires Recorded() && Next(Now(), e, s)
      modifies this`states, this`events
      ensures Recorded() && Now() == s && events == old(events) + [e] && states == old(states) + [s]
    {
      hide Next, Fresh;
      states := states + [s];
      events := events + [e];
    }

    /** Only temporaries hold bytes that are not safe: what bears another name was synced before it got it. */
    ghost predicate Published()
      reads this`unsynced
    {
      forall n :: n in unsynced ==> Temporary(n)
    }

    /** What a power failure may leave: of the manifest and of live segments, nothing that was not synced is safe. */
    ghost predicate MayLeave(survivor: DiskImage)
      reads this`image, this`unsynced
    {
      && (MANIFEST !in unsynced ==> survivor.manifest == image.manifest)
      && (image.wal.None? <==> survivor.wal.None?)
      && (exists k: nat :: FallsBack(image, WalBytes(survivor), k))
      && survivor.synced == |WalBytes(survivor)| && survivor.earlier == []
      && forall n :: n in M.LiveFiles(image.manifest) && n in image.files && n !in unsynced ==>
           n in survivor.files && survivor.files[n] == image.files[n]
    }

    /** Since live segments are never temporaries, all of them survive. */
    lemma LeavesLive(survivor: DiskImage)
      requires Recorded() && Now().disk == image && Published() && MayLeave(survivor)
      ensures AfterPowerLoss(image, survivor)
    {
      hide Run, Reachable, Temporary, FallsBack, Removable, M.Load;
      NowReachable(states, events);
      LiveFilesAreSafe(Now());
      ManifestTemporaryIs();
    }

    /** The power fails, whatever is running, and leaves `survivor`, which may be anything that it may leave. */
    method LosePower(survivor: DiskImage)
      requires Recorded() && Now().disk == image && Published() && MayLeave(survivor)
      modifies this`image, this`states, this`events, this`unsynced, this`loose
      ensures Recorded() && image == survivor && Now() == Stopped(image) && Published()
      ensures events == old(events) + [PowerLost(InFlight(old(Now())))]
    {
      hide Run, AfterPowerLoss, MayLeave;
      LeavesLive(survivor);
      image := survivor;
      unsynced := {};
      loose := false;
      Record(PowerLost(InFlight(Now())), Stopped(image));
    }

    /** A system call, which may fail. */
    method Call() returns (ok: bool)
      modifies this`faults
      ensures faults == old(faults) + if ok then 0 else 1
    {
      ok := *;
      if !ok {
        faults := faults + 1;
      }
    }

    // ----- the write-ahead log -----

    /** Opens for appending, creating the file if it is missing. */
    method OpenLog() returns (ok: bool)
      modifies this`image, this`faults, this`loose
      ensures faults == old(faults) + if ok then 0 else 1
      ensures loose == (old(loose) || (ok && old(image).wal.None?))
      ensures ok ==> image == if old(image).wal.Some? then old(image) else old(image).(wal := Some([]), synced := 0)
      ensures !ok ==> image == old(image)
    {
      ok := Call();
      if ok && image.wal.None? {
        loose := true;
        image := image.(wal := Some([]), synced := 0);
      }
    }

    /** Any number of the bytes may be written; to write none is a failure, too. */
    method Write(bytes: Bytes) returns (outcome: WriteOutcome)
      requires image.wal.Some?
      modifies this`image, this`interrupts, this`faults
      ensures interrupts <= old(interrupts)
      ensures faults == old(faults) + if outcome == WriteFailed || outcome == Written(0) then 1 else 0
      ensures outcome.Written? ==>
                outcome.count <= |bytes| && image == WithWal(old(image), WalBytes(old(image)) + bytes[..outcome.count])
      ensures !outcome.Written? ==> image == old(image)
      ensures outcome.Interrupted? ==> interrupts < old(interrupts)
    {
      var choice: int := *;
      if choice == 0 {
        faults := faults + 1;
        return WriteFailed;
      }
      if choice == 1 && interrupts > 0 {
        interrupts := interrupts - 1;
        return Interrupted;
      }
      var count: nat :| count <= |bytes|;
      image := WithWal(image, WalBytes(image) + bytes[..count]);
      if count == 0 {
        faults := faults + 1;
      }
      outcome := Written(count);
    }

    method SyncLog() returns (ok: bool)
      modifies this`image, this`faults
      ensures faults == old(faults) + if ok then 0 else 1
      ensures image == if ok then AfterSync(old(image)) else old(image)
    {
      ok := Call();
      if ok {
        image := AfterSync(image);
      }
    }

    method TruncateLog(size: nat) returns (ok: bool)
      requires size <= |WalBytes(image)|
      modifies this`image, this`faults
      ensures faults == old(faults) + if ok then 0 else 1
      ensures image == if ok then Truncate(old(image), size) else old(image)
    {
      ok := Call();
      if ok {
        image := Truncate(image, size);
      }
    }

    method LogExists() returns (found: Option<bool>)
      modifies this`faults
      ensures faults == old(faults) + if found.Some? then 0 else 1
      ensures found.Some? ==> found.value == image.wal.Some?
    {
      var ok := Call();
      found := if ok then Some(image.wal.Some?) else None;
    }

    method ReadLog() returns (content: Option<Bytes>)
      modifies this`faults
      ensures faults == old(faults) + if image.wal.Some? && content.None? then 1 else 0
      ensures content.Some? ==> image.wal == content
    {
      if image.wal.None? {
        return None;
      }
      var ok := Call();
      content := if ok then image.wal else None;
    }

    // ----- the other files -----

    /** `None` if the directory cannot be read; otherwise the manifest's bytes, if there is one. */
    method ReadManifest() returns (content: Option<Option<Bytes>>)
      modifies this`faults
      ensures faults == old(faults) + if content.Some? then 0 else 1
      ensures content.Some? ==> content.value == image.manifest
    {
      var ok := Call();
      content := if ok then Some(image.manifest) else None;
    }

    method ReadFile(name: Name) returns (content: Option<Bytes>)
      modifies this`faults
      ensures faults == old(faults) + if name in image.files && content.None? then 1 else 0
      ensures content.Some? ==> name in image.files && image.files[name] == content.value
    {
      if name !in image.files {
        return None;
      }
      var ok := Call();
      content := if ok then Some(image.files[name]) else None;
    }

    /** Opens a file, emptying or creating it, and writes it. On failure it may be untouched or hold anything. */
    method WriteFile(name: Name, bytes: Bytes) returns (ok: bool)
      modifies this`image, this`faults, this`unsynced, this`loose
      ensures faults == old(faults) + if ok then 0 else 1
      ensures ok ==> image == old(image).(files := old(image).files[name := bytes])
      ensures !ok ==> OnlyTemporary(old(image), image, name)
      ensures unsynced == old(unsynced) + {name} || (!ok && image == old(image) && unsynced == old(unsynced))
      ensures loose || (!old(loose) && !ok && image == old(image))
    {
      ok := Call();
      var touched: bool, partial: Bytes := *, *;
      if ok || touched {
        image := image.(files := image.files[name := if ok then bytes else partial]);
        unsynced := unsynced + {name};
        loose := true;
      }
    }

    method SyncFile(name: Name) returns (ok: bool)
      requires name in image.files
      modifies this`faults, this`unsynced
      ensures faults == old(faults) + if ok then 0 else 1
      ensures unsynced == if ok then old(unsynced) - {name} else old(unsynced)
    {
      ok := Call();
      if ok {
        unsynced := unsynced - {name};
      }
    }

    /** The name now stands for the file, whose bytes are as safe as they were. */
    ghost function Renamed(unsynced: set<Name>, from: Name, to: Name): set<Name> {
      (unsynced - {from, to}) + if from in unsynced then {to} else {}
    }

    method Rename(from: Name, to: Name) returns (ok: bool)
      requires from in image.files && from != to
      modifies this`image, this`faults, this`unsynced, this`loose
      ensures faults == old(faults) + if ok then 0 else 1
      ensures ok ==>
                && image == old(image).(files := (old(image).files - {from})[to := old(image).files[from]])
                && unsynced == Renamed(old(unsynced), from, to) && loose
      ensures !ok ==> image == old(image) && unsynced == old(unsynced) && loose == old(loose)
    {
      ok := Call();
      if ok {
        image := image.(files := (image.files - {from})[to := image.files[from]]);
        unsynced := Renamed(unsynced, from, to);
        loose := true;
      }
    }

    method RenameToManifest(from: Name) returns (ok: bool)
      requires from in image.files && from != MANIFEST
      modifies this`image, this`faults, this`unsynced, this`loose
      ensures faults == old(faults) + if ok then 0 else 1
      ensures ok ==>
                && image == old(image).(manifest := Some(old(image).files[from]), files := old(image).files - {from})
                && unsynced == Renamed(old(unsynced), from, MANIFEST) && loose
      ensures !ok ==> image == old(image) && unsynced == old(unsynced) && loose == old(loose)
    {
      ok := Call();
      if ok {
        image := image.(manifest := Some(image.files[from]), files := image.files - {from});
        unsynced := Renamed(unsynced, from, MANIFEST);
        loose := true;
      }
    }

    method SyncDirectory() returns (ok: bool)
      modifies this`faults, this`loose
      ensures faults == old(faults) + if ok then 0 else 1
      ensures loose == (old(loose) && !ok)
    {
      ok := Call();
      if ok {
        loose := false;
      }
    }

    /**
      `atomic_write_file`: writes a temporary, syncs it, renames it and syncs the directory. A failure may leave the
      temporary in any state, and a failure of the last step comes when the file has been replaced already.
     */
    method ReplaceFile(name: Name, bytes: Bytes) returns (ok: bool, ghost replaced: bool)
      requires Published()
      modifies this`image, this`faults, this`unsynced, this`loose
      ensures faults == old(faults) + if ok then 0 else 1
      ensures ok ==> replaced && !loose
      ensures replaced ==> image == Publish(old(image), name, bytes) && unsynced <= old(unsynced)
      ensures !replaced ==> OnlyTemporary(old(image), image, TemporaryOf(name))
      ensures Published()
    {
      hide Temporary;
      TemporaryOfTemporary(name);
      replaced := false;
      ok := WriteFile(TemporaryOf(name), bytes);
      if !ok {
        return;
      }
      ok := SyncFile(TemporaryOf(name));
      if !ok {
        return;
      }
      ok := Rename(TemporaryOf(name), name);
      if !ok {
        return;
      }
      replaced := true;
      ok := SyncDirectory();
    }

    method ReplaceManifest(bytes: Bytes) returns (ok: bool, ghost replaced: bool)
      requires Published()
      modifies this`image, this`faults, this`unsynced, this`loose
      ensures faults == old(faults) + if ok then 0 else 1
      ensures ok ==> replaced && !loose
      ensures replaced ==> image == old(image).(manifest := Some(bytes), files := old(image).files - {MANIFEST_TEMPORARY})
      ensures !replaced ==> OnlyTemporary(old(image), image, MANIFEST_TEMPORARY)
      ensures Published()
    {
      hide Temporary;
      ManifestTemporaryIs();
      replaced := false;
      ok := WriteFile(MANIFEST_TEMPORARY, bytes);
      if !ok {
        return;
      }
      ok := SyncFile(MANIFEST_TEMPORARY);
      if !ok {
        return;
      }
      ok := RenameToManifest(MANIFEST_TEMPORARY);
      if !ok {
        return;
      }
      replaced := true;
      ok := SyncDirectory();
    }

    /** Best effort: the file may still be there afterwards, which only the record of refusals tells. */
    method Remove(name: Name)
      modifies this`image, this`refused, this`loose
      ensures image == if refused == old(refused) then old(image).(files := old(image).files - {name}) else old(image)
      ensures refused == old(refused) || refused == old(refused) + [name]
    {
      var ok: bool := *;
      if ok {
        image := image.(files := image.files - {name});
        loose := true;
      } else {
        refused := refused + [name];
      }
    }
  }

  datatype WalError = Unusable | RecordTooLarge | IoFailed

  class WalWriter {
    const volume: Volume
    const durability: Durability
    var sizeBytes: nat
    var failed: bool

    ghost predicate Valid()
      reads this, volume
    {
      volume.image.wal.Some? && (!failed ==> sizeBytes == |WalBytes(volume.image)|)
    }

    constructor (volume: Volume, durability: Durability)
      requires volume.image.wal.Some?
      ensures Valid() && !failed && this.volume == volume && this.durability == durability
    {
      this.volume := volume;
      this.durability := durability;
      sizeBytes := |WalBytes(volume.image)|;
      failed := false;
    }

    /** Writes until nothing is left, trying again when interrupted. A failure leaves a prefix behind. */
    method WriteAll(bytes: Bytes) returns (ok: bool, ghost written: nat)
      requires volume.image.wal.Some?
      modifies volume`image, volume`interrupts, volume`faults
      ensures volume.faults == old(volume.faults) + if ok then 0 else 1
      ensures written <= |bytes| && (ok ==> written == |bytes|)
      ensures volume.image == WithWal(old(volume.image), WalBytes(old(volume.image)) + bytes[..written])
    {
      var total: nat := 0;
      ghost var before := WalBytes(volume.image);
      assert before + bytes[..0] == before;
      while total < |bytes|
        invariant total <= |bytes| && volume.faults == old(volume.faults)
        invariant volume.image == WithWal(old(volume.image), before + bytes[..total])
        decreases |bytes| - total, volume.interrupts
      {
        var outcome := volume.Write(bytes[total..]);
        match outcome
        case Interrupted => continue;
        case WriteFailed => return false, total;
        case Written(count) =>
          assert before + bytes[..total] + bytes[total..][..count] == before + bytes[..total + count];
          if count == 0 {
            return false, total;
          }
          total := total + count;
      }
      return true, total;
    }

    /**
      Success means that the record is appended, and synced if appends are synchronous. Failure leaves any prefix of
      the record, and unless the record was too large to try, a writer that refuses everything from now on.
     */
    method Append(record: WalPutRecord) returns (r: Result<(), WalError>)
      requires Valid()
      modifies this, volume`image, volume`interrupts, volume`faults
      ensures volume.faults == old(volume.faults) + if r == Failure(IoFailed) then 1 else 0
      ensures r == Failure(Unusable) <==> old(failed)
      ensures r == Failure(Unusable) || r == Failure(RecordTooLarge) ==>
                volume.image == old(volume.image) && failed == old(failed) && sizeBytes == old(sizeBytes)
      ensures !old(failed) ==> (r == Failure(RecordTooLarge) <==> WalRecord.Encode(record).Failure?)
      ensures Valid()
      ensures r.Success? ==>
                && !failed && WalRecord.Encode(record).Success?
                && var grown := WithWal(old(volume.image), WalBytes(old(volume.image)) + WalRecord.Encode(record).value);
                   volume.image == if durability == SyncOnAppend then AfterSync(grown) else grown
      ensures r == Failure(IoFailed) ==>
                && failed && WalRecord.Encode(record).Success?
                && Torn(old(volume.image), volume.image, WalRecord.Encode(record).value)
    {
      hide WalRecord.Encode;
      if failed {
        return Failure(Unusable);
      }
      var encoded := EncodeWalRecord(record);
      if encoded.Failure? {
        return Failure(RecordTooLarge);
      }
      var ok, written := WriteAll(encoded.value);
      if !ok {
        failed := true;
        assert TornAt(old(volume.image), volume.image, encoded.value, written);
        return Failure(IoFailed);
      }
      assert encoded.value[..written] == encoded.value;
      assert TornAt(old(volume.image), volume.image, encoded.value, written);
      sizeBytes := sizeBytes + |encoded.value|;
      if durability == SyncOnAppend {
        var synced := Sync();
        if synced.Failure? {
          return synced;
        }
      }
      r := Success(());
    }

    method Sync() returns (r: Result<(), WalError>)
      requires Valid()
      modifies this`failed, volume`image, volume`faults
      ensures volume.faults == old(volume.faults) + if r == Failure(IoFailed) then 1 else 0
      ensures Valid()
      ensures old(failed) ==> r == Failure(Unusable) && failed
      ensures r.Success? ==> !failed && volume.image == AfterSync(old(volume.image))
      ensures r.Failure? ==> failed && volume.image == old(volume.image)
      ensures !old(failed) ==> r.Success? || r == Failure(IoFailed)
    {
      if failed {
        return Failure(Unusable);
      }
      var ok := volume.SyncLog();
      if !ok {
        failed := true;
        return Failure(IoFailed);
      }
      r := Success(());
    }

    /** Empties the log. If the sync after the cut fails, the file is empty, but not safely so. */
    method Reset() returns (r: Result<(), WalError>)
      requires Valid()
      modifies this, volume`image, volume`faults
      ensures volume.faults == old(volume.faults) + if r == Failure(IoFailed) then 1 else 0
      ensures Valid()
      ensures old(failed) ==> r == Failure(Unusable) && volume.image == old(volume.image)
      ensures !old(failed) ==> r.Success? || r == Failure(IoFailed)
      ensures r.Success? ==> !failed && volume.image == AfterSync(Truncate(old(volume.image), 0))
      ensures r.Failure? ==>
                failed && (volume.image == old(volume.image) || volume.image == Truncate(old(volume.image), 0))
    {
      if failed {
        return Failure(Unusable);
      }
      var ok := volume.TruncateLog(0);
      if ok {
        ok := volume.SyncLog();
      }
      if !ok {
        failed := true;
        return Failure(IoFailed);
      }
      sizeBytes := 0;
      r := Success(());
    }
  }

}
