/** The durable state under a database directory, and what losing power can do to it. */
module Disk {
  import opened Prelude
  import opened SegmentNames
  import opened Manifest

  /** A state of the write-ahead log file: its bytes, and how many of them have been synced. */
  datatype Version = Version(bytes: Bytes, synced: nat)

  /**
    The write-ahead log with the length of its synced prefix, the manifest, and every other file. `earlier` are the
    versions of the log file that were truncated since its last sync, oldest first.
   */
  datatype DiskImage =
    DiskImage(wal: Option<Bytes>, synced: nat, earlier: seq<Version>, manifest: Option<Bytes>, files: map<Name, Bytes>)

  function WalBytes(d: DiskImage): Bytes {
    if d.wal.Some? then d.wal.value else []
  }

  predicate Temporary(name: Name) {
    EndsWith(name, TEMPORARY)
  }

  lemma TemporaryOfTemporary(name: Name)
    ensures Temporary(TemporaryOf(name)) && TemporaryOf(name) != name
  {}

  /** Everything that has been written to the log file is safe, and so is that it was cut. */
  function AfterSync(d: DiskImage): DiskImage {
    d.(synced := |WalBytes(d)|, earlier := [])
  }

  predicate WalSynced(d: DiskImage) {
    d.synced == |WalBytes(d)| && d.earlier == []
  }

  /** Cutting the log file. Until the next sync, the uncut version may come back. */
  function Truncate(d: DiskImage, size: nat): DiskImage
    requires size <= |WalBytes(d)|
  {
    d.(wal := Some(WalBytes(d)[..size]), synced := if d.synced < size then d.synced else size,
       earlier := d.earlier + [Version(WalBytes(d), d.synced)])
  }

  /** The versions of the log file that a power failure may fall back on, the present one last. */
  function Versions(d: DiskImage): seq<Version> {
    d.earlier + [Version(WalBytes(d), d.synced)]
  }

  /** Version number `k` loses bytes that had not been synced. */
  ghost predicate FallsBack(d: DiskImage, wal: Bytes, k: nat) {
    k < |Versions(d)| && Versions(d)[k].synced <= |wal| && wal <= Versions(d)[k].bytes
  }

  /**
    The write-ahead log comes back in one of its versions, with some prefix no shorter than what was synced, possibly
    cutting a record in two. The manifest stays, and so do the segments it names. Any other file may hold anything, be
    gone or be back.
   */
  ghost predicate AfterPowerLoss(d: DiskImage, d': DiskImage) {
    && d'.manifest == d.manifest
    && (d.wal.None? <==> d'.wal.None?)
    && (exists k: nat :: FallsBack(d, WalBytes(d'), k))
    && d'.synced == |WalBytes(d')| && d'.earlier == []
    && (forall n :: n in LiveFiles(d.manifest) && n in d.files ==> n in d'.files && d'.files[n] == d.files[n])
  }

  /** Replacing a file: its temporary disappears and the name now holds the new bytes. */
  function Publish(d: DiskImage, name: Name, bytes: Bytes): DiskImage {
    d.(files := (d.files - {TemporaryOf(name)})[name := bytes])
  }

  // ----- what a power failure can do -----

  /** The directory as the machine would find it if nothing but the log had been lost. */
  function WithLog(d: DiskImage, wal: Bytes): DiskImage {
    d.(wal := Some(wal), synced := |wal|, earlier := [])
  }

  /** An append that was not synced can be torn anywhere. */
  lemma AppendMayTear(d: DiskImage, more: Bytes, k: nat)
    requires d.wal.Some? && d.synced <= |WalBytes(d)| <= k <= |WalBytes(d)| + |more|
    ensures AfterPowerLoss(d.(wal := Some(WalBytes(d) + more)), WithLog(d, (WalBytes(d) + more)[..k]))
  {
    hide LiveFiles;
    var grown := d.(wal := Some(WalBytes(d) + more));
    var left := WithLog(d, (WalBytes(d) + more)[..k]);
    assert FallsBack(grown, WalBytes(left), |d.earlier|);
  }

  /** A cut that was not synced can be undone, and what had been cut off can come back in part. */
  lemma CutMayComeBack(d: DiskImage, size: nat, k: nat)
    requires d.wal.Some? && size <= |WalBytes(d)| && d.synced <= k <= |WalBytes(d)|
    ensures AfterPowerLoss(Truncate(d, size), WithLog(d, WalBytes(d)[..k]))
  {
    hide LiveFiles;
    var left := WithLog(d, WalBytes(d)[..k]);
    assert FallsBack(Truncate(d, size), WalBytes(left), |d.earlier|);
  }
}
