/**
  The store directory and the locked sections of a store handle as values
  (crates/tst-core/src/persistence.rs). Each function is one critical section
  under the append lock, so any number of handles on one directory interleave
  as these functions do.
 */
module Store {
  import opened Wrappers
  import opened Memory
  import opened History
  import opened Wal

  /** The files of a store directory; `staged` is snapshot.next.msgpack. */
  datatype Disk = Disk(
    snapshot: Option<seq<byte>>,
    previous: Option<seq<byte>>,
    staged: Option<seq<byte>>,
    generation: nat,
    wal: seq<byte>
  )

  /** What a store handle keeps in memory, apart from its trie. */
  datatype Handle = Handle(records: Records, generation: nat, position: nat)

  /** The result of a critical section: `ok` is false where the Rust method returns an error. */
  datatype Effect = Effect(disk: Disk, handle: Handle, changed: bool, ok: bool)

  // ---------- snapshots ----------

  function ReadSnapshot(file: Option<seq<byte>>): Result<Option<Snapshot>> {
    if file.None? then Ok(None)
    else
      match SnapshotPayload(file.value)
      case Err => Err
      case Ok(payload) =>
        match CODEC.decodeSnapshot(payload)
        case None => Err
        case Some(snapshot) => Ok(Some(snapshot))
  }

  function Migrate(snapshot: Snapshot): Result<Snapshot> {
    if snapshot.schema == SNAPSHOT_SCHEMA_VERSION then Ok(snapshot)
    else if snapshot.schema < SNAPSHOT_SCHEMA_VERSION then Ok(Snapshot(SNAPSHOT_SCHEMA_VERSION, snapshot.records))
    else Err
  }

  function MigratedRecords(snapshot: Snapshot): Result<Records> {
    match Migrate(snapshot)
    case Err => Err
    case Ok(migrated) => Ok(migrated.records)
  }

  /** A missing primary is an empty base; only an unreadable one falls back to the previous snapshot. */
  function LoadRecords(disk: Disk): Result<Records> {
    match ReadSnapshot(disk.snapshot)
    case Ok(Some(snapshot)) => MigratedRecords(snapshot)
    case Ok(None) => Ok(map[])
    case Err =>
      match ReadSnapshot(disk.previous)
      case Ok(Some(snapshot)) => MigratedRecords(snapshot)
      case Ok(None) => Ok(map[])
      case Err => Err
  }

  // ---------- synchronising ----------

  function Reload(disk: Disk, handle: Handle): Effect {
    match LoadRecords(disk)
    case Err => Effect(disk, handle, false, false)
    case Ok(records) => Effect(disk, Handle(records, disk.generation, 0), true, true)
  }

  /** `replay_wal`: apply every frame past the position and cut off whatever is no frame. */
  function Replay(disk: Disk, handle: Handle): Effect {
    var start := if |disk.wal| < handle.position then Reload(disk, handle) else Effect(disk, handle, false, true);
    if !start.ok || |disk.wal| <= start.handle.position then start
    else
      var position := start.handle.position;
      var scanned := Scan(disk.wal[position..]);
      var replayed := start.handle.(records := Fold(start.handle.records, scanned.events));
      if !scanned.ok then Effect(disk, replayed, false, false)
      else
        var end := position + scanned.size;
        Effect(disk.(wal := disk.wal[..end]), replayed.(position := end),
               start.changed || scanned.events != [] || end < |disk.wal|, true)
  }

  /** `sync_wal_locked`. */
  function Sync(disk: Disk, handle: Handle): Effect {
    var start :=
      if disk.generation != handle.generation then Reload(disk, handle) else Effect(disk, handle, false, true);
    if !start.ok then start
    else
      var replayed := Replay(disk, start.handle);
      replayed.(changed := start.changed || replayed.changed)
  }

  /** The locked section of `open`. */
  function Open(disk: Disk): Effect {
    var start := Reload(disk, Handle(map[], 0, 0));
    if !start.ok then start else Replay(disk, start.handle)
  }

  // ---------- writing ----------

  /** The locked section of `append`; an event without a frame is refused before the lock is taken. */
  function AppendLocked(disk: Disk, handle: Handle, event: WalEvent): Effect {
    match FrameOf(event)
    case None => Effect(disk, handle, false, false)
    case Some(frame) =>
      var synced := Sync(disk, handle);
      if !synced.ok then synced
      else
        var wal := synced.disk.wal + frame;
        Effect(synced.disk.(wal := wal), synced.handle.(position := |wal|), synced.changed, true)
  }

  function Applied(effect: Effect, event: WalEvent): Effect {
    if effect.ok then effect.(handle := effect.handle.(records := Apply(effect.handle.records, event))) else effect
  }

  /** An append and the `apply` that follows it in the same handle. */
  function Append(disk: Disk, handle: Handle, event: WalEvent): Effect {
    Applied(AppendLocked(disk, handle, event), event)
  }

  function WithoutTombstones(records: Records): Records {
    map id | id in records && !records[id].tombstone :: records[id]
  }

  function SnapshotPayloadOf(records: Records): Option<seq<byte>> {
    CODEC.encodeSnapshot(Snapshot(SNAPSHOT_SCHEMA_VERSION, WithoutTombstones(records)))
  }

  /** The points between the disk steps of a compaction, in order. */
  datatype Stage =
    | Staging(written: nat)
    | Staged
    | PreviousRemoved
    | PrimaryRenamed
    | Installed
    | Numbered
    | Truncated

  /** The first rename: the primary, if there is one, becomes the previous snapshot. */
  function Shelve(disk: Disk): Disk {
    if disk.snapshot.Some? then disk.(previous := disk.snapshot, snapshot := None) else disk
  }

  /** The second rename: the staged snapshot becomes the primary. */
  function Install(disk: Disk): Disk {
    disk.(snapshot := disk.staged, staged := None)
  }

  /** The directory at each of those points, for a synchronised directory and a snapshot file. */
  function DiskAt(disk: Disk, file: seq<byte>, stage: Stage): Disk {
    var withStaged := disk.(staged := Some(file));
    match stage
    case Staging(written) => disk.(staged := Some(if written <= |file| then file[..written] else file))
    case Staged => withStaged
    case PreviousRemoved => if disk.snapshot.Some? then withStaged.(previous := None) else withStaged
    case PrimaryRenamed => Shelve(withStaged)
    case Installed => Install(Shelve(withStaged))
    case Numbered => Install(Shelve(withStaged)).(generation := disk.generation + 1)
    case Truncated => Install(Shelve(withStaged)).(generation := disk.generation + 1, wal := [])
  }

  /** The locked section of `compact` for the handle that holds the writer lock. */
  function Compact(disk: Disk, handle: Handle): Effect {
    var synced := Sync(disk, handle);
    if !synced.ok then synced
    else
      var kept := synced.handle.(records := WithoutTombstones(synced.handle.records));
      match SnapshotPayloadOf(synced.handle.records)
      case None => Effect(synced.disk, kept, synced.changed, false)
      case Some(payload) =>
        Effect(DiskAt(synced.disk, SnapshotFile(payload), Truncated),
               Handle(kept.records, synced.handle.generation + 1, 0), true, true)
  }

  /** Exactly the records without a tombstone are kept, each as it is. */
  ghost predicate KeepsUntombstoned(before: Records, after: Records) {
    && (forall id :: id in after <==> id in before && !before[id].tombstone)
    && (forall id :: id in after ==> after[id] == before[id])
  }

  lemma DroppingTombstones(records: Records)
    ensures KeepsUntombstoned(records, WithoutTombstones(records))
  {
  }

  /**
    After a compaction the handle holds exactly the records without a tombstone
    that it held once synchronised, access counts included; the new snapshot, if
    it can be read back, holds the same, the old one has become the previous
    snapshot, the generation is the next and the log is empty. A snapshot that
    cannot be encoded costs the handle its tombstones, but not the directory.
   */
  lemma CompactionDropsTombstones(disk: Disk, handle: Handle)
    requires Sync(disk, handle).ok
    ensures KeepsUntombstoned(Sync(disk, handle).handle.records, Compact(disk, handle).handle.records)
    ensures !Compact(disk, handle).ok ==> Compact(disk, handle).disk == Sync(disk, handle).disk
    ensures Compact(disk, handle).ok ==>
            var synced, compacted := Sync(disk, handle), Compact(disk, handle);
            && (Compactable(synced.handle.records) ==>
                  LoadRecords(compacted.disk) == Ok(compacted.handle.records))
            && (synced.disk.snapshot.Some? ==> compacted.disk.previous == synced.disk.snapshot)
            && (synced.disk.snapshot.None? ==> compacted.disk.previous == synced.disk.previous)
            && compacted.disk.generation == compacted.handle.generation == disk.generation + 1
            && compacted.disk.wal == [] && compacted.handle.position == 0 && compacted.disk.staged.None?
  {
    var synced := Sync(disk, handle);
    SyncedGeneration(disk, handle);
    DroppingTombstones(synced.handle.records);
    if Compact(disk, handle).ok && Compactable(synced.handle.records) {
      InstalledBase(Compact(disk, handle).disk, synced.handle.records);
    }
  }

  /** So a compacted id that was removed is unknown, to this handle and to every one that opens the directory. */
  lemma CompactionForgetsRemoved(disk: Disk, handle: Handle, id: string)
    requires Compact(disk, handle).ok && Compactable(Sync(disk, handle).handle.records)
    requires var records := Sync(disk, handle).handle.records; id in records ==> records[id].tombstone
    ensures id !in Compact(disk, handle).handle.records
    ensures Open(Compact(disk, handle).disk).ok && id !in Open(Compact(disk, handle).disk).handle.records
  {
    CompactionDropsTombstones(disk, handle);
    var compacted := Compact(disk, handle);
    assert Log([]) + [] == [];
    OpenRecovers(compacted.disk, compacted.handle.records, [], []);
  }

  /** An event without a frame is refused before anything is read or written. */
  lemma RefusedAppendChangesNothing(disk: Disk, handle: Handle, event: WalEvent)
    requires FrameOf(event).None?
    ensures !Append(disk, handle, event).ok
    ensures Append(disk, handle, event).disk == disk && Append(disk, handle, event).handle == handle
  {
  }

  /** Synchronising again at once finds nothing to do. */
  lemma SyncIsIdempotent(disk: Disk, handle: Handle)
    requires Sync(disk, handle).ok
    ensures var synced := Sync(disk, handle);
            Sync(synced.disk, synced.handle) == Effect(synced.disk, synced.handle, false, true)
  {
  }

  lemma SyncedGeneration(disk: Disk, handle: Handle)
    requires Sync(disk, handle).ok
    ensures Sync(disk, handle).handle.generation == Sync(disk, handle).disk.generation == disk.generation
  {
  }

  // ---------- what recovery reads ----------

  /** The snapshot a recovery reads stays the same while the snapshot files do. */
  lemma SameSnapshots(disk: Disk, later: Disk)
    requires later.snapshot == disk.snapshot && later.previous == disk.previous
    ensures LoadRecords(later) == LoadRecords(disk)
  {
  }

  /** The directory holds a readable base under a log of these events with a torn tail. */
  ghost predicate Holds(disk: Disk, base: Records, events: seq<WalEvent>, tail: seq<byte>) {
    LoadRecords(disk) == Ok(base) && Loggable(events) && Torn(tail) && disk.wal == Log(events) + tail
  }

  /** Synchronising from any frame boundary applies exactly the events past it and cuts off the torn tail. */
  lemma ReplayFromBoundary(disk: Disk, base: Records, events: seq<WalEvent>, tail: seq<byte>, handle: Handle, done: nat)
    requires Holds(disk, base, events, tail)
    requires done <= |events| && handle.position == |Log(events[..done])|
    ensures Replay(disk, handle)
         == Effect(disk.(wal := Log(events)),
                   handle.(records := Fold(handle.records, events[done..]), position := |Log(events)|),
                   done < |events| || tail != [], true)
  {
    hide FrameOf, LoadRecords, Scan, Log;
    ScanFromBoundary(events, done, tail);
    assert (Log(events) + tail)[..|Log(events)|] == Log(events);
    if |disk.wal| <= handle.position {
      NothingPast(events, done, tail);
      assert Log(events) + tail == Log(events) && Fold(handle.records, []) == handle.records;
    }
  }

  /** A boundary that nothing lies past is the end of a clean log. */
  lemma NothingPast(events: seq<WalEvent>, done: nat, tail: seq<byte>)
    requires Loggable(events) && done <= |events| && |Log(events) + tail| <= |Log(events[..done])|
    ensures tail == [] && events[done..] == [] && |Log(events[..done])| == |Log(events)|
  {
    hide FrameOf;
    assert events[..done] + events[done..] == events;
    LogConcat(events[..done], events[done..]);
    assert Log(events[done..]) == [];
  }

  /** Opening recovers the fold of the whole log over the base. */
  lemma OpenRecovers(disk: Disk, base: Records, events: seq<WalEvent>, tail: seq<byte>)
    requires Holds(disk, base, events, tail)
    ensures var reopened := Open(disk);
            && reopened.ok
            && reopened.disk == disk.(wal := Log(events))
            && reopened.handle == Handle(Fold(base, events), disk.generation, |Log(events)|)
  {
    assert events[..0] == [] && Log(events[..0]) == [] && events[0..] == events;
    ReplayFromBoundary(disk, base, events, tail, Handle(base, disk.generation, 0), 0);
  }

  /** A handle of an older generation synchronises by starting over. */
  lemma SyncAcrossGenerations(disk: Disk, base: Records, events: seq<WalEvent>, tail: seq<byte>, handle: Handle)
    requires Holds(disk, base, events, tail) && handle.generation != disk.generation
    ensures var synced := Sync(disk, handle);
            && synced.ok && synced.changed
            && synced.disk == disk.(wal := Log(events))
            && synced.handle == Handle(Fold(base, events), disk.generation, |Log(events)|)
  {
    OpenRecovers(disk, base, events, tail);
  }

  /** What is found at the end of the log at one synchronisation: new frames, and perhaps a torn tail. */
  datatype Arrival = Arrival(events: seq<WalEvent>, tail: seq<byte>)

  ghost predicate Arrivals(arrivals: seq<Arrival>) {
    forall i :: 0 <= i < |arrivals| ==> Loggable(arrivals[i].events) && Torn(arrivals[i].tail)
  }

  ghost function Arrived(arrivals: seq<Arrival>): (events: seq<WalEvent>)
    requires Arrivals(arrivals)
    ensures Loggable(events)
  {
    if arrivals == [] then [] else arrivals[0].events + Arrived(arrivals[1..])
  }

  /** A handle that synchronises after each arrival. */
  ghost function Instalments(disk: Disk, handle: Handle, arrivals: seq<Arrival>): Effect
    requires Arrivals(arrivals)
    decreases |arrivals|
  {
    if arrivals == [] then Effect(disk, handle, false, true)
    else
      var synced := Sync(disk.(wal := disk.wal + Log(arrivals[0].events) + arrivals[0].tail), handle);
      if !synced.ok then synced else Instalments(synced.disk, synced.handle, arrivals[1..])
  }

  /** One instalment, for a handle at the end of a clean log. */
  lemma InstalmentResumes(disk: Disk, base: Records, events: seq<WalEvent>, arrival: Arrival)
    requires Holds(disk, base, events, []) && Loggable(arrival.events) && Torn(arrival.tail)
    ensures Loggable(events + arrival.events)
    ensures var arrived := disk.(wal := disk.wal + Log(arrival.events) + arrival.tail);
            var handle := Handle(Fold(base, events), disk.generation, |Log(events)|);
            var all := events + arrival.events;
            && Sync(arrived, handle).ok
            && Sync(arrived, handle).disk == disk.(wal := Log(all))
            && Sync(arrived, handle).handle == Handle(Fold(base, all), disk.generation, |Log(all)|)
            && Holds(disk.(wal := Log(all)), base, all, [])
  {
    hide FrameOf, LoadRecords, Replay;
    var all := events + arrival.events;
    var arrived := disk.(wal := disk.wal + Log(arrival.events) + arrival.tail);
    LogConcat(events, arrival.events);
    SameSnapshots(disk, arrived);
    SameSnapshots(disk, disk.(wal := Log(all)));
    assert disk.wal == Log(events) && Log(all) + [] == Log(all);
    assert all[..|events|] == events && all[|events|..] == arrival.events;
    var handle := Handle(Fold(base, events), disk.generation, |Log(events)|);
    ReplayFromBoundary(arrived, base, all, arrival.tail, handle, |events|);
    FoldConcat(base, events, arrival.events);
  }

  /**
    Replaying in any number of instalments, with events and torn tails arriving
    in between, leaves the handle and the directory exactly as one replay of all
    events from the start does.
   */
  lemma {:induction false} InstalmentsAgree(disk: Disk, base: Records, first: seq<WalEvent>, arrivals: seq<Arrival>)
    requires Holds(disk, base, first, []) && Arrivals(arrivals)
    ensures Loggable(first + Arrived(arrivals))
    ensures var resumed := Instalments(disk, Open(disk).handle, arrivals);
            var whole := Open(disk.(wal := Log(first + Arrived(arrivals))));
            resumed.ok && whole.ok && resumed.disk == whole.disk && resumed.handle == whole.handle
    decreases |arrivals|
  {
    hide FrameOf, LoadRecords, Sync, Open, Log;
    OpenRecovers(disk, base, first, []);
    if arrivals == [] {
      assert first + [] == first;
      assert disk.(wal := Log(first)) == disk by {
        assert Log(first) + [] == Log(first);
      }
    } else {
      var all := first + arrivals[0].events;
      InstalmentResumes(disk, base, first, arrivals[0]);
      OpenRecovers(disk.(wal := Log(all)), base, all, []);
      InstalmentsAgree(disk.(wal := Log(all)), base, all, arrivals[1..]);
      assert all + Arrived(arrivals[1..]) == first + Arrived(arrivals);
    }
  }

  // ---------- a log cut at any byte ----------

  /**
    Whatever byte the log of a directory is cut at, every handle of the current
    generation that stood at a frame boundary, and every newly reopened one,
    recovers exactly the longest prefix of events whose frames fit, and the file
    is cut back to that boundary.
   */
  lemma CutRecovers(disk: Disk, base: Records, events: seq<WalEvent>, length: nat)
    requires Holds(disk, base, events, []) && length <= |disk.wal|
    ensures var cut := disk.(wal := disk.wal[..length]);
            var kept := events[..Fitting(events, length)];
            && Open(cut).ok
            && Open(cut).disk == disk.(wal := Log(kept))
            && Open(cut).handle == Handle(Fold(base, kept), disk.generation, |Log(kept)|)
  {
    var tail := CutLog(events, length);
    var kept := events[..Fitting(events, length)];
    assert Log(events) + [] == Log(events);
    OpenRecovers(disk.(wal := disk.wal[..length]), base, kept, tail);
  }

  lemma CutResyncs(disk: Disk, base: Records, events: seq<WalEvent>, length: nat, handle: Handle, done: nat)
    requires Holds(disk, base, events, []) && length <= |disk.wal|
    requires handle.generation == disk.generation && done <= |events| && handle.position == |Log(events[..done])|
    ensures var cut := disk.(wal := disk.wal[..length]);
            var fit := Fitting(events, length);
            && Sync(cut, handle).ok
            && Sync(cut, handle).disk == disk.(wal := Log(events[..fit]))
            && Sync(cut, handle).handle.position == |Log(events[..fit])|
            && (length >= handle.position ==> done <= fit)
            && Sync(cut, handle).handle.records
               == (if length < handle.position then Fold(base, events[..fit])
                   else Fold(handle.records, events[done..fit]))
  {
    hide FrameOf;
    var tail := CutLog(events, length);
    var fit := Fitting(events, length);
    var kept := events[..fit];
    var cut := disk.(wal := disk.wal[..length]);
    assert Log(events) + [] == Log(events);
    if length < handle.position {
      CutRecovers(disk, base, events, length);
    } else {
      FittingIsLongest(events, length);
      if fit < done {
        assert events[..done] == events[..fit + 1] + events[fit + 1..done];
        LogConcat(events[..fit + 1], events[fit + 1..done]);
        assert false;
      }
      assert kept[..done] == events[..done] && kept[done..] == events[done..fit];
      ReplayFromBoundary(cut, base, kept, tail, handle, done);
    }
  }

  /** After such a cut the next append leaves a log that decodes to the surviving events and the new one. */
  lemma AppendAfterCut(disk: Disk, base: Records, events: seq<WalEvent>, length: nat, event: WalEvent)
    requires Holds(disk, base, events, []) && length <= |disk.wal| && FrameOf(event).Some?
    ensures var cut := disk.(wal := disk.wal[..length]);
            var reopened := Open(cut);
            var appended := Append(reopened.disk, reopened.handle, event);
            var kept := events[..Fitting(events, length)] + [event];
            && appended.ok
            && Loggable(kept) && appended.disk.wal == Log(kept)
            && Scan(appended.disk.wal) == LogScan(kept, |appended.disk.wal|, true)
            && appended.handle.records == Fold(base, kept)
  {
    hide FrameOf, LoadRecords;
    CutRecovers(disk, base, events, length);
    var kept := events[..Fitting(events, length)];
    var reopened := Open(disk.(wal := disk.wal[..length]));
    assert Log(kept) + [] == Log(kept);
    assert kept[..|kept|] == kept && kept[|kept|..] == [];
    SameSnapshots(disk, reopened.disk);
    ReplayFromBoundary(reopened.disk, base, kept, [], reopened.handle, |kept|);
    LogSnoc(kept, event);
    FoldConcat(base, kept, [event]);
    ScanLog(kept + [event], []);
    assert Log(kept + [event]) + [] == Log(kept + [event]);
  }

  // ---------- what cannot be read ----------

  /** A snapshot file counts as missing, as unreadable, or as the snapshot its payload decodes to. */
  lemma SnapshotReads(file: Option<seq<byte>>)
    ensures ReadSnapshot(file) == Ok(None) <==> file.None?
    ensures ReadSnapshot(file).Err?
       <==> (&& file.Some?
             && (|| SnapshotPayload(file.value).Err?
                 || CODEC.decodeSnapshot(SnapshotPayload(file.value).value).None?))
    ensures forall s: Snapshot :: ReadSnapshot(file) == Ok(Some(s)) <==>
              && file.Some? && SnapshotPayload(file.value).Ok?
              && CODEC.decodeSnapshot(SnapshotPayload(file.value).value) == Some(s)
  {
  }

  /**
    What recovery starts from: a missing primary is an empty base whatever the
    previous snapshot holds; an unreadable one gives way to the previous snapshot,
    to an empty base if that is missing, and to an error if it is unreadable too.
   */
  lemma BaseOfRecovery(disk: Disk)
    ensures disk.snapshot.None? ==> LoadRecords(disk) == Ok(map[])
    ensures ReadSnapshot(disk.snapshot).Err? && disk.previous.None? ==> LoadRecords(disk) == Ok(map[])
    ensures ReadSnapshot(disk.snapshot).Err? && ReadSnapshot(disk.previous).Err? ==>
              LoadRecords(disk).Err? && !Open(disk).ok
    ensures forall s: Snapshot :: ReadSnapshot(disk.snapshot).Err? && ReadSnapshot(disk.previous) == Ok(Some(s)) ==>
              LoadRecords(disk) == if s.schema <= SNAPSHOT_SCHEMA_VERSION then Ok(s.records) else Err
  {
  }

  /**
    A snapshot of a newer schema is an error, even where a previous snapshot could
    be read; an older one is taken over.
   */
  lemma NewerSchemaIsRefused(disk: Disk, snapshot: Snapshot)
    requires ReadSnapshot(disk.snapshot) == Ok(Some(snapshot))
    ensures snapshot.schema > SNAPSHOT_SCHEMA_VERSION ==> LoadRecords(disk).Err? && !Open(disk).ok
    ensures snapshot.schema <= SNAPSHOT_SCHEMA_VERSION ==> LoadRecords(disk) == Ok(snapshot.records)
  {
  }

  /**
    A frame with a good checksum that does not decode makes every replay fail
    there: the log is not cut, the position stays, and the events before it are
    applied again at each attempt, which changes no live record.
   */
  lemma UndecodableFrameBlocks(disk: Disk, events: seq<WalEvent>, rest: seq<byte>, handle: Handle, done: nat)
    requires Loggable(events) && NextFrame(rest).Undecodable? && disk.wal == Log(events) + rest
    requires done <= |events| && handle.position == |Log(events[..done])|
    ensures var first := Replay(disk, handle);
            var second := Replay(first.disk, first.handle);
            && !first.ok && !second.ok && first.disk == disk == second.disk
            && first.handle == handle.(records := Fold(handle.records, events[done..]))
            && Live(second.handle.records) == Live(first.handle.records)
  {
    hide FrameOf, Log, Scan;
    assert events[..done] + events[done..] == events;
    LogConcat(events[..done], events[done..]);
    assert disk.wal[handle.position..] == Log(events[done..]) + rest;
    ScanUntil(events[done..], rest);
    assert |rest| > 0;
    ReplayIsIdempotent(handle.records, events[done..]);
  }

  // ---------- crashes inside a compaction ----------

  /** The new snapshot can be read back: the limit on its size is checked by the reader only. */
  predicate Compactable(records: Records) {
    SnapshotPayloadOf(records).Some? && |SnapshotPayloadOf(records).value| <= MAX_SNAPSHOT_BYTES
  }

  lemma InstalledBase(disk: Disk, records: Records)
    requires Compactable(records) && disk.snapshot == Some(SnapshotFile(SnapshotPayloadOf(records).value))
    ensures ReadSnapshot(disk.snapshot).Ok? && LoadRecords(disk) == Ok(WithoutTombstones(records))
  {
    SnapshotFileRoundTrip(SnapshotPayloadOf(records).value);
  }

  lemma TombstonesAreNotLive(records: Records)
    ensures Live(WithoutTombstones(records)) == Live(records)
  {
  }

  /**
    A crash at any point of a compaction leaves a directory that recovers the
    same live records, because replaying the whole old log over the compacted
    snapshot changes nothing. The two points left out are the gap between the
    renames of an existing primary snapshot, and, should the primary be
    unreadable, the gap in which the previous snapshot has been removed.
   */
  lemma CrashedCompactionRecovers(disk: Disk, base: Records, events: seq<WalEvent>, stage: Stage)
    requires Holds(disk, base, events, [])
    requires Compactable(Fold(base, events))
    requires stage.PreviousRemoved? ==> ReadSnapshot(disk.snapshot).Ok?
    requires stage.PrimaryRenamed? ==> disk.snapshot.None?
    ensures var file := SnapshotFile(SnapshotPayloadOf(Fold(base, events)).value);
            Open(DiskAt(disk, file, stage)).ok
                && Live(Open(DiskAt(disk, file, stage)).handle.records) == Live(Fold(base, events))
  {
    var whole := Fold(base, events);
    var file := SnapshotFile(SnapshotPayloadOf(whole).value);
    var crashed := DiskAt(disk, file, stage);
    match stage {
      case Staging(_) | Staged | PreviousRemoved | PrimaryRenamed =>
        SurvivingBase(disk, file, stage);
        OpenRecovers(crashed, base, events, []);
      case Installed | Numbered =>
        InstalledBase(crashed, whole);
        TombstonesAreNotLive(whole);
        assert crashed.wal == disk.wal;
        OpenRecovers(crashed, WithoutTombstones(whole), events, []);
        LiveFoldCongruent(WithoutTombstones(whole), whole, events);
        ReplayIsIdempotent(base, events);
      case Truncated =>
        InstalledBase(crashed, whole);
        TombstonesAreNotLive(whole);
        assert Log([]) + [] == [];
        OpenRecovers(crashed, WithoutTombstones(whole), [], []);
    }
  }

  /** Where the primary snapshot is readable, removing the previous one changes nothing that is read. */
  lemma SurvivingBase(disk: Disk, file: seq<byte>, stage: Stage)
    requires stage.Staging? || stage.Staged? || stage.PreviousRemoved? || stage.PrimaryRenamed?
    requires stage.PrimaryRenamed? ==> disk.snapshot.None?
    requires stage.PreviousRemoved? ==> ReadSnapshot(disk.snapshot).Ok?
    ensures LoadRecords(DiskAt(disk, file, stage)) == LoadRecords(disk)
    ensures DiskAt(disk, file, stage).wal == disk.wal
  {
  }

  /**
    In the gap between the two renames there is no primary snapshot, and the
    recovery takes a missing primary for an empty base. It still recovers the
    same live records exactly when the log itself writes or removes every
    record that is live in the base.
   */
  lemma CrashBetweenRenames(disk: Disk, base: Records, events: seq<WalEvent>, file: seq<byte>)
    requires Holds(disk, base, events, []) && disk.snapshot.Some?
    ensures Open(DiskAt(disk, file, PrimaryRenamed)).ok
    ensures Live(Open(DiskAt(disk, file, PrimaryRenamed)).handle.records) == Live(Fold(base, events))
       <==> forall id :: id in Live(base) ==> Settles(events, id)
  {
    OpenRecovers(DiskAt(disk, file, PrimaryRenamed), map[], events, []);
    ReplayWithoutBase(base, events);
  }

  /**
    An unreadable primary makes the previous snapshot the base, and a compaction
    removes that one before anything replaces the primary. Crashing there leaves
    an empty base; the recovery still finds the same live records exactly when
    the log writes or removes every record that is live in the base.
   */
  lemma CrashWithUnreadablePrimary(disk: Disk, base: Records, events: seq<WalEvent>, file: seq<byte>)
    requires Holds(disk, base, events, []) && ReadSnapshot(disk.snapshot).Err?
    ensures Open(DiskAt(disk, file, PreviousRemoved)).ok
    ensures Live(Open(DiskAt(disk, file, PreviousRemoved)).handle.records) == Live(Fold(base, events))
       <==> forall id :: id in Live(base) ==> Settles(events, id)
  {
    OpenRecovers(DiskAt(disk, file, PreviousRemoved), map[], events, []);
    ReplayWithoutBase(base, events);
  }

  /** The gap loses everything when a compacted directory with an empty log is compacted again. */
  lemma CrashBetweenRenamesLoses(disk: Disk, base: Records, file: seq<byte>)
    requires Holds(disk, base, [], []) && disk.snapshot.Some?
    ensures Live(Open(DiskAt(disk, file, PrimaryRenamed)).handle.records) == map[]
  {
    OpenRecovers(DiskAt(disk, file, PrimaryRenamed), map[], [], []);
  }

  /**
    Should the new primary turn out to be unreadable, the previous snapshot takes
    its place. Until the log is truncated nothing is lost by that; afterwards the
    store is back at the compaction before.
   */
  lemma UnreadablePrimaryFallsBack(disk: Disk, base: Records, events: seq<WalEvent>, file: seq<byte>,
      damaged: seq<byte>)
    requires Holds(disk, base, events, []) && disk.snapshot.Some? && ReadSnapshot(disk.snapshot).Ok?
    requires ReadSnapshot(Some(damaged)).Err?
    ensures Open(DiskAt(disk, file, Numbered).(snapshot := Some(damaged))).handle.records == Fold(base, events)
    ensures Open(DiskAt(disk, file, Truncated).(snapshot := Some(damaged))).handle.records == base
  {
    var numbered := DiskAt(disk, file, Numbered).(snapshot := Some(damaged));
    var truncated := DiskAt(disk, file, Truncated).(snapshot := Some(damaged));
    OpenRecovers(numbered, base, events, []);
    assert Log([]) + [] == [];
    OpenRecovers(truncated, base, [], []);
  }

  /**
    The writer does not check the limit that the reader does. A compaction whose
    payload is over it reports success and truncates the log, and the next
    recovery is back at the snapshot before. Only if the length field wraps and
    the checksum collides does it read the start of the payload instead.
   */
  lemma OversizedCompactionFallsBack(disk: Disk, base: Records, events: seq<WalEvent>)
    requires Holds(disk, base, events, []) && disk.snapshot.Some? && ReadSnapshot(disk.snapshot).Ok?
    requires SnapshotPayloadOf(Fold(base, events)).Some?
    ensures var payload := SnapshotPayloadOf(Fold(base, events)).value;
            var compacted := DiskAt(disk, SnapshotFile(payload), Truncated);
            && (|payload| <= MAX_SNAPSHOT_BYTES ==> Live(Open(compacted).handle.records) == Live(Fold(base, events)))
            && (|payload| > MAX_SNAPSHOT_BYTES && !WrapsToValid(payload) ==> Open(compacted).handle.records == base)
            && (|payload| > MAX_SNAPSHOT_BYTES && WrapsToValid(payload) ==>
                  ReadSnapshot(compacted.snapshot)
                  == match CODEC.decodeSnapshot(payload[..|payload| % 0x1_0000_0000])
                     case None => Err
                     case Some(snapshot) => Ok(Some(snapshot)))
  {
    var payload := SnapshotPayloadOf(Fold(base, events)).value;
    assert DiskAt(disk, SnapshotFile(payload), Truncated).snapshot == Some(SnapshotFile(payload));
    if |payload| <= MAX_SNAPSHOT_BYTES {
      CrashedCompactionRecovers(disk, base, events, Truncated);
    } else {
      OversizedIsUnreadable(payload);
      if !WrapsToValid(payload) {
        UnreadablePrimaryFallsBack(disk, base, events, SnapshotFile(payload), SnapshotFile(payload));
      }
    }
  }
}
