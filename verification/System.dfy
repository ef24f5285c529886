/**
  Any number of store handles on one directory, as a state machine whose steps
  are the critical sections of crates/tst-core/src/persistence.rs, with crashes
  between the disk steps of an append and of a compaction. The last fields of
  `System` and `Member` are bookkeeping that no step reads.
 */
module System {
  import opened Wrappers
  import opened Memory
  import opened History
  import opened Wal
  import opened Store
  import opened Lookup

  /** A store handle, its trie contents, and how many committed events it has seen. */
  datatype Member = Member(handle: Handle, index: Index, seen: nat)

  /**
    The directory, its open handles and all committed events in append order.
    The log starts at event `logStart`, and `tail` is what a crashed append left
    behind.
   */
  datatype System = System(
    disk: Disk,
    members: map<nat, Member>,
    history: seq<WalEvent>,
    logStart: nat,
    tail: seq<byte>
  )

  datatype Step =
    | OpenStore(who: nat)
    | SyncStore(who: nat)
    | UpsertRecord(who: nat, record: MemoryRecord)
    | TombstoneId(who: nat, id: string, timestampMs: nat)
    | InvalidatePath(who: nat, path: string, currentHash: string)
    | ExactKey(who: nat, key: string, found: Option<string>)
    | CompactStore(who: nat)
    | CloseStore(who: nat)
    | CrashAppend(who: nat, event: WalEvent, written: nat)
    | CrashCompact(who: nat, stage: Stage)

  // ---------- steps ----------

  /** A fresh, empty directory. */
  ghost predicate Init(s: System) {
    s == System(Disk(None, None, None, 0, []), map[], [], 0, [])
  }

  /** After a synchronisation the trie is rebuilt if anything changed. */
  ghost predicate Reindexed(changed: bool, before: Index, records: Records, after: Index) {
    if changed then IsIndexOf(after, records) else after == before
  }

  /** The step of a handle ended in this effect, and `events` were committed by it. */
  ghost predicate Moved(s: System, who: nat, effect: Effect, index: Index, events: seq<WalEvent>, s': System) {
    && s'.disk == effect.disk
    && s'.history == s.history + events
    && s'.members == s.members[who := Member(effect.handle, index, |s'.history|)]
    && s'.tail == []
  }

  ghost predicate SameLog(s: System, s': System) {
    s'.logStart == s.logStart
  }

  ghost predicate OpenStep(s: System, who: nat, s': System) {
    && Open(s.disk).ok
    && SameLog(s, s')
    && exists index :: IsIndexOf(index, Open(s.disk).handle.records) && Moved(s, who, Open(s.disk), index, [], s')
  }

  ghost predicate SyncStep(s: System, who: nat, s': System) {
    && who in s.members
    && var m := s.members[who];
    var synced := Sync(s.disk, m.handle);
    && synced.ok
    && SameLog(s, s')
    && exists index :: Reindexed(synced.changed, m.index, synced.handle.records, index)
        && Moved(s, who, synced, index, [], s')
  }

  /** How `upsert`, `tombstone` and `invalidate_path` leave the trie after their event has been applied. */
  ghost predicate IndexAfter(event: WalEvent, middle: Index, records: Records, after: Index) {
    match event
    case Upsert(record) => after == Inserted(middle, record)
    case Tombstone(_, _) => IsIndexOf(after, records)
    case StalePath(_, _) => after == middle
  }

  ghost predicate AppendStep(s: System, who: nat, event: WalEvent, s': System) {
    && who in s.members
    && var m := s.members[who];
    var synced, appended := Sync(s.disk, m.handle), Append(s.disk, m.handle, event);
    && appended.ok
    && SameLog(s, s')
    && exists middle, index ::
         && Reindexed(synced.changed, m.index, synced.handle.records, middle)
         && IndexAfter(event, middle, appended.handle.records, index)
         && Moved(s, who, appended, index, [event], s')
  }

  /** `exact`: a synchronisation, a lookup, and an access count that only this handle sees. */
  ghost predicate ExactStep(s: System, who: nat, key: string, found: Option<string>, s': System) {
    exists middle :: SyncStep(s, who, middle) && ExactAnswers(middle, who, key, found)
        && s' == Counted(middle, who, found)
  }

  predicate ExactAnswers(s: System, who: nat, key: string, found: Option<string>) {
    who in s.members && found == ExactId(s.members[who].handle.records, s.members[who].index, key)
  }

  function Counted(s: System, who: nat, found: Option<string>): System
    requires who in s.members
    requires found.Some? ==> found.value in s.members[who].handle.records
  {
    var m := s.members[who];
    if found.None? then s
    else s.(members := s.members[who := m.(handle := m.handle.(records := Touched(m.handle.records, found.value)))])
  }

  ghost predicate CompactStep(s: System, who: nat, s': System) {
    && who in s.members
    && var m := s.members[who];
    var synced, compacted := Sync(s.disk, m.handle), Compact(s.disk, m.handle);
    && synced.ok && Compactable(synced.handle.records)
    && s'.logStart == |s.history|
    && exists index :: IsIndexOf(index, compacted.handle.records) && Moved(s, who, compacted, index, [], s')
  }

  /** An upsert logs a record with the normal form of its key. */
  predicate EventNormal(event: WalEvent) {
    event.Upsert? ==> RecordNormal(event.record, event.record.id)
  }

  /** Only the first `written` bytes of the frame reach the log; the event is committed if that is all of them. */
  ghost predicate CrashAppendStep(s: System, who: nat, event: WalEvent, written: nat, s': System) {
    && who in s.members
    && EventNormal(event) && FrameOf(event).Some?
    && var synced := Sync(s.disk, s.members[who].handle);
    var frame := FrameOf(event).value;
    && synced.ok && written <= |frame|
    && s'.disk == synced.disk.(wal := synced.disk.wal + frame[..written])
    && s'.members == s.members - {who}
    && s'.history == (if written == |frame| then s.history + [event] else s.history)
    && s'.tail == (if written == |frame| then [] else frame[..written])
    && SameLog(s, s')
  }

  /** The handle dies between two disk steps of its compaction. */
  ghost predicate CrashCompactStep(s: System, who: nat, stage: Stage, s': System) {
    && who in s.members
    && var synced := Sync(s.disk, s.members[who].handle);
    && synced.ok && Compactable(synced.handle.records)
    && s'.disk == DiskAt(synced.disk, SnapshotFile(SnapshotPayloadOf(synced.handle.records).value), stage)
    && s'.members == s.members - {who}
    && s'.history == s.history
    && s'.tail == []
    && s'.logStart == (if stage.Truncated? then |s.history| else s.logStart)
  }

  ghost predicate Next(s: System, step: Step, s': System) {
    match step
    case OpenStore(who) => OpenStep(s, who, s')
    case SyncStore(who) => SyncStep(s, who, s')
    case UpsertRecord(who, record) => AppendStep(s, who, Upsert(Normalized(record)), s')
    case TombstoneId(who, id, timestampMs) => AppendStep(s, who, Tombstone(id, timestampMs), s')
    case InvalidatePath(who, path, currentHash) => AppendStep(s, who, StalePath(path, currentHash), s')
    case ExactKey(who, key, found) => ExactStep(s, who, key, found, s')
    case CompactStore(who) => CompactStep(s, who, s')
    case CloseStore(who) => s' == s.(members := s.members - {who})
    case CrashAppend(who, event, written) => CrashAppendStep(s, who, event, written, s')
    case CrashCompact(who, stage) => CrashCompactStep(s, who, stage, s')
  }

  /** A run: states joined by steps. */
  ghost predicate IsRun(states: seq<System>, steps: seq<Step>) {
    && |states| == |steps| + 1
    && Init(states[0])
    && forall i :: 0 <= i < |steps| ==> Next(states[i], steps[i], states[i + 1])
  }

  /**
    The crash falls between the two renames of an existing snapshot, and the log
    neither writes nor removes some record that is live in that snapshot.
   */
  ghost predicate LosesBase(s: System, step: Step) {
    && step.CrashCompact? && step.stage.PrimaryRenamed? && s.disk.snapshot.Some?
    && LoadRecords(s.disk).Ok? && s.logStart <= |s.history|
    && exists id :: id in Live(LoadRecords(s.disk).value) && !Settles(s.history[s.logStart..], id)
  }

  /** A run in which no crash loses the base in the gap between the renames. */
  ghost predicate SafeRun(states: seq<System>, steps: seq<Step>) {
    IsRun(states, steps) && forall i :: 0 <= i < |steps| ==> !LosesBase(states[i], steps[i])
  }

  // ---------- the invariant ----------

  /** The directory recovers the whole history. */
  ghost predicate DiskInv(s: System) {
    && s.logStart <= |s.history|
    && Loggable(s.history) && Torn(s.tail)
    && s.disk.wal == Log(s.history[s.logStart..]) + s.tail
    && ReadSnapshot(s.disk.snapshot).Ok?
    && LoadRecords(s.disk).Ok?
    && Live(Fold(LoadRecords(s.disk).value, s.history[s.logStart..])) == Outcome(s.history)
  }

  /** A handle holds a prefix of the history, and in the current generation it stands at the matching frame boundary. */
  ghost predicate MemberInv(s: System, m: Member)
    requires DiskInv(s)
  {
    && m.seen <= |s.history|
    && Live(m.handle.records) == Outcome(s.history[..m.seen])
    && m.handle.generation <= s.disk.generation
    && (m.handle.generation == s.disk.generation ==>
          s.logStart <= m.seen && m.handle.position == |Log(s.history[s.logStart..m.seen])|)
  }

  ghost predicate Inv(s: System) {
    DiskInv(s) && forall who :: who in s.members ==> MemberInv(s, s.members[who])
  }

  // ---------- synchronising in any reachable state ----------

  lemma DiskHolds(s: System)
    requires DiskInv(s)
    ensures Holds(s.disk, LoadRecords(s.disk).value, s.history[s.logStart..], s.tail)
  {
  }

  /** Where a handle stands after any synchronisation: at the end of a clean log, holding the whole history. */
  ghost predicate AtEnd(s: System, effect: Effect)
    requires Loggable(s.history) && s.logStart <= |s.history|
  {
    && effect.ok
    && effect.disk == s.disk.(wal := Log(s.history[s.logStart..]))
    && effect.handle.generation == s.disk.generation
    && effect.handle.position == |Log(s.history[s.logStart..])|
    && Live(effect.handle.records) == Outcome(s.history)
  }

  lemma OpenReachesEnd(s: System)
    requires DiskInv(s)
    ensures AtEnd(s, Open(s.disk))
    ensures Open(s.disk).handle.records == Fold(LoadRecords(s.disk).value, s.history[s.logStart..])
  {
    DiskHolds(s);
    OpenRecovers(s.disk, LoadRecords(s.disk).value, s.history[s.logStart..], s.tail);
  }

  lemma SyncReachesEnd(s: System, m: Member)
    requires DiskInv(s) && MemberInv(s, m)
    ensures var synced := Sync(s.disk, m.handle);
            && AtEnd(s, synced)
            && (synced.handle.records == Fold(LoadRecords(s.disk).value, s.history[s.logStart..])
                || synced.handle.records == Fold(m.handle.records, s.history[m.seen..]))
            && (!synced.changed ==> synced.handle.records == m.handle.records)
  {
    hide FrameOf, LoadRecords, Replay, Log;
    DiskHolds(s);
    if m.handle.generation == s.disk.generation {
      ResumeReachesEnd(s, m);
    } else {
      SyncAcrossGenerations(s.disk, LoadRecords(s.disk).value, s.history[s.logStart..], s.tail, m.handle);
    }
  }

  /** In the current generation a handle goes on from the frame boundary it stands at. */
  lemma ResumeReachesEnd(s: System, m: Member)
    requires DiskInv(s) && MemberInv(s, m) && m.handle.generation == s.disk.generation
    ensures var replayed := Replay(s.disk, m.handle);
            && AtEnd(s, replayed)
            && replayed.handle.records == Fold(m.handle.records, s.history[m.seen..])
            && (!replayed.changed ==> replayed.handle.records == m.handle.records)
  {
    hide FrameOf, LoadRecords, Replay, Log;
    DiskHolds(s);
    var log, done := s.history[s.logStart..], m.seen - s.logStart;
    assert log[..done] == s.history[s.logStart..m.seen] && log[done..] == s.history[m.seen..];
    ReplayFromBoundary(s.disk, LoadRecords(s.disk).value, log, s.tail, m.handle, done);
    LiveFoldCongruent(m.handle.records, Fold(map[], s.history[..m.seen]), s.history[m.seen..]);
    FoldConcat(map[], s.history[..m.seen], s.history[m.seen..]);
    assert s.history[..m.seen] + s.history[m.seen..] == s.history;
  }

  // ---------- every step keeps the invariant ----------

  lemma InitKeepsInv(s: System)
    requires Init(s)
    ensures Inv(s)
  {
    assert Log([]) == [];
    assert s.history[0..] == [];
  }

  /** Trimming the torn tail does not concern the other handles. */
  lemma SyncedKeepsInv(s: System, who: nat, effect: Effect, index: Index, s': System)
    requires Inv(s) && AtEnd(s, effect)
    requires Moved(s, who, effect, index, [], s') && SameLog(s, s')
    ensures Inv(s')
  {
    assert s'.history == s.history;
    assert s'.disk.wal == Log(s.history[s.logStart..]) + [];
    assert DiskInv(s');
    assert s.history[..|s.history|] == s.history;
    assert s.history[s.logStart..|s.history|] == s.history[s.logStart..];
    forall other | other in s'.members ensures MemberInv(s', s'.members[other]) {
      if other != who {
        assert MemberInv(s, s.members[other]);
      }
    }
  }

  /** Committing one event at the end of a clean log. */
  lemma CommittedKeepsDisk(s: System, event: WalEvent, s': System)
    requires DiskInv(s) && FrameOf(event).Some?
    requires s'.history == s.history + [event] && SameLog(s, s') && s'.tail == []
    requires s'.disk == s.disk.(wal := Log(s.history[s.logStart..]) + FrameOf(event).value)
    ensures DiskInv(s')
    ensures s'.disk.wal == Log(s'.history[s.logStart..])
  {
    hide FrameOf, LoadRecords;
    var log := s.history[s.logStart..];
    assert s'.history[s.logStart..] == log + [event];
    LogSnoc(log, event);
    LogSnoc(s.history, event);
    SameSnapshots(s.disk, s'.disk);
    assert Log(log + [event]) + [] == Log(log + [event]);
    var base := LoadRecords(s.disk).value;
    FoldConcat(base, log, [event]);
    FoldConcat(map[], s.history, [event]);
    LiveFoldCongruent(Fold(base, log), Fold(map[], s.history), [event]);
  }

  /** A handle keeps what it holds when the history grows past it. */
  lemma LaterHistoryKeepsMember(s: System, m: Member, s': System)
    requires DiskInv(s) && MemberInv(s, m) && DiskInv(s')
    requires s.history <= s'.history
    requires s'.disk.generation > s.disk.generation
          || (s'.disk.generation == s.disk.generation && s'.logStart == s.logStart)
    ensures MemberInv(s', m)
  {
    assert s'.history[..m.seen] == s.history[..m.seen];
    if m.handle.generation == s'.disk.generation {
      assert s'.history[s.logStart..m.seen] == s.history[s.logStart..m.seen];
    }
  }

  lemma AppendKeepsInv(s: System, who: nat, event: WalEvent, s': System)
    requires Inv(s) && AppendStep(s, who, event, s')
    ensures Inv(s')
  {
    hide Replay, Reload, LoadRecords;
    var m := s.members[who];
    SyncReachesEnd(s, m);
    var synced, appended := Sync(s.disk, m.handle), Append(s.disk, m.handle, event);
    CommittedKeepsDisk(s, event, s');
    LiveFoldCongruent(synced.handle.records, Fold(map[], s.history), [event]);
    assert Fold(synced.handle.records, [event]) == Apply(synced.handle.records, event);
    FoldConcat(map[], s.history, [event]);
    forall other | other in s'.members ensures MemberInv(s', s'.members[other]) {
      if other == who {
        assert s'.history[..|s'.history|] == s'.history;
        assert s'.history[s.logStart..|s'.history|] == s'.history[s.logStart..];
      } else {
        LaterHistoryKeepsMember(s, s.members[other], s');
      }
    }
  }

  /** The old log over a compacted snapshot recovers the history, and so does an empty log. */
  lemma CompactedRecovers(base: Records, log: seq<WalEvent>, history: seq<WalEvent>, compacted: Records)
    requires Live(Fold(base, log)) == Outcome(history) && Live(compacted) == Outcome(history)
    ensures Live(Fold(compacted, log)) == Outcome(history) && Live(Fold(compacted, [])) == Outcome(history)
  {
    LiveFoldCongruent(compacted, Fold(base, log), log);
    ReplayIsIdempotent(base, log);
  }

  /** What a compaction that stopped at some stage leaves on the disk. */
  ghost predicate StoppedAt(s: System, effect: Effect, stage: Stage, s': System)
    requires Compactable(effect.handle.records)
  {
    && s'.disk == DiskAt(effect.disk, SnapshotFile(SnapshotPayloadOf(effect.handle.records).value), stage)
    && s'.history == s.history && s'.tail == []
    && s'.logStart == (if stage.Truncated? then |s.history| else s.logStart)
  }

  lemma InstalledDisk(s: System, effect: Effect, stage: Stage, s': System)
    requires DiskInv(s) && AtEnd(s, effect) && Compactable(effect.handle.records) && StoppedAt(s, effect, stage, s')
    requires stage.Installed? || stage.Numbered? || stage.Truncated?
    ensures DiskInv(s')
  {
    hide FrameOf;
    var records, log := effect.handle.records, s.history[s.logStart..];
    assert s.history[|s.history|..] == [] && Log([]) + [] == [] && Log(log) + [] == Log(log);
    InstalledBase(s'.disk, records);
    TombstonesAreNotLive(records);
    CompactedRecovers(LoadRecords(s.disk).value, log, s.history, WithoutTombstones(records));
  }

  lemma SurvivingDisk(s: System, effect: Effect, stage: Stage, s': System)
    requires DiskInv(s) && AtEnd(s, effect) && Compactable(effect.handle.records) && StoppedAt(s, effect, stage, s')
    requires stage.Staging? || stage.Staged? || stage.PreviousRemoved?
        || (stage.PrimaryRenamed? && s.disk.snapshot.None?)
    ensures DiskInv(s')
  {
    hide FrameOf;
    assert Log(s.history[s.logStart..]) + [] == Log(s.history[s.logStart..]);
    SurvivingBase(effect.disk, SnapshotFile(SnapshotPayloadOf(effect.handle.records).value), stage);
    SameSnapshots(s.disk, effect.disk);
  }

  /**
    Between the renames of an existing snapshot the disk still recovers the history
    exactly if the base is not needed.
   */
  lemma GapDisk(s: System, effect: Effect, s': System)
    requires DiskInv(s) && AtEnd(s, effect) && Compactable(effect.handle.records)
    requires StoppedAt(s, effect, PrimaryRenamed, s') && s.disk.snapshot.Some?
    ensures DiskInv(s') <==> forall id :: id in Live(LoadRecords(s.disk).value) ==> Settles(s.history[s.logStart..], id)
    ensures LoadRecords(s'.disk) == Ok(map[])
  {
    hide FrameOf;
    assert Log(s.history[s.logStart..]) + [] == Log(s.history[s.logStart..]);
    ReplayWithoutBase(LoadRecords(s.disk).value, s.history[s.logStart..]);
  }

  lemma CompactedDisk(s: System, effect: Effect, who: nat, stage: Stage, s': System)
    requires DiskInv(s) && AtEnd(s, effect) && Compactable(effect.handle.records) && StoppedAt(s, effect, stage, s')
    ensures DiskInv(s') <==> !LosesBase(s, CrashCompact(who, stage))
    ensures s'.disk.generation == s.disk.generation + (if stage.Numbered? || stage.Truncated? then 1 else 0)
  {
    assert s.logStart <= |s.history| && LoadRecords(s.disk).Ok?;
    hide FrameOf, DiskInv, LoadRecords, Settles;
    if stage.Installed? || stage.Numbered? || stage.Truncated? {
      InstalledDisk(s, effect, stage, s');
    } else if stage.PrimaryRenamed? && s.disk.snapshot.Some? {
      GapDisk(s, effect, s');
    } else {
      SurvivingDisk(s, effect, stage, s');
    }
  }

  lemma CompactKeepsInv(s: System, who: nat, s': System)
    requires Inv(s) && CompactStep(s, who, s')
    ensures Inv(s')
  {
    var m := s.members[who];
    SyncReachesEnd(s, m);
    var synced := Sync(s.disk, m.handle);
    CompactedDisk(s, synced, who, Truncated, s');
    TombstonesAreNotLive(synced.handle.records);
    forall other | other in s'.members ensures MemberInv(s', s'.members[other]) {
      if other == who {
        assert s'.history[..|s'.history|] == s'.history;
        assert s'.history[|s.history|..|s.history|] == [] && Log([]) == [];
      } else {
        LaterHistoryKeepsMember(s, s.members[other], s');
      }
    }
  }

  lemma CrashAppendKeepsInv(s: System, who: nat, event: WalEvent, written: nat, s': System)
    requires Inv(s) && CrashAppendStep(s, who, event, written, s')
    ensures Inv(s')
  {
    SyncReachesEnd(s, s.members[who]);
    var frame := FrameOf(event).value;
    assert frame[..|frame|] == frame;
    if written == |frame| {
      CommittedKeepsDisk(s, event, s');
    } else {
      assert frame[..written] < frame;
    }
    forall other | other in s'.members ensures MemberInv(s', s'.members[other]) {
      LaterHistoryKeepsMember(s, s.members[other], s');
    }
  }

  lemma CrashCompactKeepsInv(s: System, who: nat, stage: Stage, s': System)
    requires Inv(s) && CrashCompactStep(s, who, stage, s')
    ensures Inv(s') <==> !LosesBase(s, CrashCompact(who, stage))
  {
    hide LosesBase, LoadRecords, FrameOf;
    SyncReachesEnd(s, s.members[who]);
    CompactedDisk(s, Sync(s.disk, s.members[who].handle), who, stage, s');
    if DiskInv(s') {
      forall other | other in s'.members ensures MemberInv(s', s'.members[other]) {
        LaterHistoryKeepsMember(s, s.members[other], s');
      }
    }
  }

  lemma TouchedIsLive(records: Records, id: string)
    requires id in records
    ensures Live(Touched(records, id)) == Live(records)
  {
  }

  lemma SyncKeepsInv(s: System, who: nat, s': System)
    requires Inv(s) && SyncStep(s, who, s')
    ensures Inv(s') && who in s'.members && s'.members[who].seen == |s'.history|
    ensures s'.history == s.history
  {
    var m := s.members[who];
    SyncReachesEnd(s, m);
    var synced := Sync(s.disk, m.handle);
    var index :| Reindexed(synced.changed, m.index, synced.handle.records, index)
      && Moved(s, who, synced, index, [], s');
    SyncedKeepsInv(s, who, synced, index, s');
  }

  lemma ExactKeepsInv(s: System, who: nat, key: string, found: Option<string>, s': System)
    requires Inv(s) && ExactStep(s, who, key, found, s')
    ensures Inv(s') && who in s'.members && s'.members[who].seen == |s'.history|
    ensures s'.history == s.history
  {
    var middle :| SyncStep(s, who, middle) && ExactAnswers(middle, who, key, found)
      && s' == Counted(middle, who, found);
    SyncKeepsInv(s, who, middle);
    CountingKeepsInv(middle, who, found);
  }

  lemma CountingKeepsInv(s: System, who: nat, found: Option<string>)
    requires Inv(s) && who in s.members
    requires found.Some? ==> found.value in s.members[who].handle.records
    ensures Inv(Counted(s, who, found)) && Counted(s, who, found).members[who].seen == s.members[who].seen
  {
    var m, s' := s.members[who], Counted(s, who, found);
    if found.Some? {
      TouchedIsLive(m.handle.records, found.value);
    }
    assert DiskInv(s');
    forall other | other in s'.members ensures MemberInv(s', s'.members[other]) {
      assert MemberInv(s, s.members[other]);
    }
  }

  /** Every step keeps the invariant, except exactly a crash that loses the base. */
  lemma NextKeepsInv(s: System, step: Step, s': System)
    requires Inv(s) && Next(s, step, s')
    ensures Inv(s') <==> !LosesBase(s, step)
  {
    match step {
      case OpenStore(who) =>
        OpenReachesEnd(s);
        var index :| IsIndexOf(index, Open(s.disk).handle.records) && Moved(s, who, Open(s.disk), index, [], s');
        SyncedKeepsInv(s, who, Open(s.disk), index, s');
      case SyncStore(who) => SyncKeepsInv(s, who, s');
      case UpsertRecord(who, record) => AppendKeepsInv(s, who, Upsert(Normalized(record)), s');
      case TombstoneId(who, id, timestampMs) => AppendKeepsInv(s, who, Tombstone(id, timestampMs), s');
      case InvalidatePath(who, path, currentHash) => AppendKeepsInv(s, who, StalePath(path, currentHash), s');
      case ExactKey(who, key, found) => ExactKeepsInv(s, who, key, found, s');
      case CompactStore(who) => CompactKeepsInv(s, who, s');
      case CloseStore(who) =>
        assert DiskInv(s');
        forall other | other in s'.members ensures MemberInv(s', s'.members[other]) {
          assert MemberInv(s, s.members[other]);
        }
      case CrashAppend(who, event, written) => CrashAppendKeepsInv(s, who, event, written, s');
      case CrashCompact(who, stage) => CrashCompactKeepsInv(s, who, stage, s');
    }
  }

  // ---------- every run ----------

  lemma {:induction false} RunKeepsInv(states: seq<System>, steps: seq<Step>, i: nat)
    requires SafeRun(states, steps) && i < |states|
    ensures Inv(states[i])
  {
    hide LoadRecords, FrameOf;
    if i == 0 {
      InitKeepsInv(states[0]);
    } else {
      RunKeepsInv(states, steps, i - 1);
      NextKeepsInv(states[i - 1], steps[i - 1], states[i]);
    }
  }

  /** The event a step commits. */
  function CommittedBy(step: Step): seq<WalEvent> {
    match step
    case UpsertRecord(_, record) => [Upsert(Normalized(record))]
    case TombstoneId(_, id, timestampMs) => [Tombstone(id, timestampMs)]
    case InvalidatePath(_, path, currentHash) => [StalePath(path, currentHash)]
    case CrashAppend(_, event, written) =>
      if FrameOf(event).Some? && written == |FrameOf(event).value| then [event] else []
    case _ => []
  }

  function Committed(steps: seq<Step>): seq<WalEvent> {
    if steps == [] then [] else Committed(steps[..|steps| - 1]) + CommittedBy(steps[|steps| - 1])
  }

  /** The history of a run is what its steps committed, in order. */
  lemma {:induction false} HistoryIsCommitted(states: seq<System>, steps: seq<Step>, i: nat)
    requires SafeRun(states, steps) && i < |states|
    ensures states[i].history == Committed(steps[..i])
  {
    if i > 0 {
      HistoryIsCommitted(states, steps, i - 1);
      RunKeepsInv(states, steps, i - 1);
      assert steps[..i][..i - 1] == steps[..i - 1];
      assert Next(states[i - 1], steps[i - 1], states[i]);
      if steps[i - 1].ExactKey? {
        ExactKeepsInv(states[i - 1], steps[i - 1].who, steps[i - 1].key, steps[i - 1].found, states[i]);
      }
    }
  }

  /** Safety: at any time, what a handle holds live is what some prefix of the committed events stands for. */
  lemma HandlesHoldPrefixes(states: seq<System>, steps: seq<Step>, i: nat, who: nat)
    requires SafeRun(states, steps) && i < |states| && who in states[i].members
    ensures exists k: nat :: k <= |Committed(steps[..i])|
              && Live(states[i].members[who].handle.records) == Outcome(Committed(steps[..i])[..k])
  {
    RunKeepsInv(states, steps, i);
    HistoryIsCommitted(states, steps, i);
    var m := states[i].members[who];
    assert MemberInv(states[i], m);
    assert m.seen <= |Committed(steps[..i])|;
  }

  /** The step synchronises the handle and leaves it open. */
  predicate Synchronises(step: Step) {
    !step.CloseStore? && !step.CrashAppend? && !step.CrashCompact?
  }

  lemma SynchronisedHoldsAll(s: System, step: Step, s': System)
    requires Inv(s) && Next(s, step, s') && Synchronises(step)
    ensures step.who in s'.members && s'.members[step.who].seen == |s'.history|
  {
    match step {
      case SyncStore(who) => SyncKeepsInv(s, who, s');
      case ExactKey(who, key, found) => ExactKeepsInv(s, who, key, found, s');
      case _ =>
    }
  }

  /** Convergence: right after a step that synchronises a handle, it holds what the whole history stands for. */
  lemma SynchronisedHandlesConverge(states: seq<System>, steps: seq<Step>, i: nat)
    requires SafeRun(states, steps) && i < |steps| && Synchronises(steps[i])
    ensures steps[i].who in states[i + 1].members
    ensures Live(states[i + 1].members[steps[i].who].handle.records) == Outcome(Committed(steps[..i + 1]))
  {
    RunKeepsInv(states, steps, i);
    RunKeepsInv(states, steps, i + 1);
    HistoryIsCommitted(states, steps, i + 1);
    SynchronisedHoldsAll(states[i], steps[i], states[i + 1]);
    var s := states[i + 1];
    assert MemberInv(s, s.members[steps[i].who]);
    assert s.history[..|s.history|] == s.history;
  }

  /** Durability: whatever crashed before, opening the directory succeeds and recovers every committed event. */
  lemma CommittedEventsAreRecovered(states: seq<System>, steps: seq<Step>, i: nat)
    requires SafeRun(states, steps) && i < |states|
    ensures Open(states[i].disk).ok
    ensures Live(Open(states[i].disk).handle.records) == Outcome(Committed(steps[..i]))
  {
    RunKeepsInv(states, steps, i);
    HistoryIsCommitted(states, steps, i);
    OpenReachesEnd(states[i]);
  }

  /** And a crash that loses the base is a loss: opening succeeds but does not recover the committed events. */
  lemma LostBaseIsLost(s: System, step: Step, s': System)
    requires Inv(s) && Next(s, step, s') && LosesBase(s, step)
    ensures Open(s'.disk).ok && Live(Open(s'.disk).handle.records) != Outcome(s'.history)
  {
    hide FrameOf, LoadRecords, Replay, Sync, Open, Fold, Live, Settles;
    var m := s.members[step.who];
    SyncReachesEnd(s, m);
    var synced := Sync(s.disk, m.handle);
    GapDisk(s, synced, s');
    assert Log(s.history[s.logStart..]) + [] == Log(s.history[s.logStart..]);
    OpenRecovers(s'.disk, map[], s.history[s.logStart..], []);
    ReplayWithoutBase(LoadRecords(s.disk).value, s.history[s.logStart..]);
  }

  // ---------- the steps are there to be taken ----------

  /** The state after a step of one handle that keeps the log where it is. */
  function MovedTo(s: System, who: nat, effect: Effect, index: Index, events: seq<WalEvent>): System {
    System(effect.disk, s.members[who := Member(effect.handle, index, |s.history + events|)], s.history + events,
           s.logStart, [])
  }

  /** In every state of every run any handle can be opened, whatever crashed before. */
  lemma OpenIsEnabled(s: System, who: nat) returns (s': System)
    requires Inv(s)
    ensures Next(s, OpenStore(who), s')
  {
    OpenReachesEnd(s);
    var index := IndexExists(Open(s.disk).handle.records);
    s' := MovedTo(s, who, Open(s.disk), index, []);
  }

  /** In every state of every run any open handle can append any event that has a frame. */
  lemma AppendIsEnabled(s: System, who: nat, event: WalEvent) returns (s': System)
    requires Inv(s) && who in s.members && FrameOf(event).Some?
    ensures AppendStep(s, who, event, s')
  {
    var m := s.members[who];
    SyncReachesEnd(s, m);
    var synced, appended := Sync(s.disk, m.handle), Append(s.disk, m.handle, event);
    var middle, index := m.index, m.index;
    if synced.changed {
      middle := IndexExists(synced.handle.records);
    }
    match event {
      case Upsert(record) => index := Inserted(middle, record);
      case Tombstone(_, _) => index := IndexExists(appended.handle.records);
      case StalePath(_, _) => index := middle;
    }
    s' := MovedTo(s, who, appended, index, [event]);
    assert IndexAfter(event, middle, appended.handle.records, index) && Moved(s, who, appended, index, [event], s');
  }

  /** In every state of every run any open handle can synchronise. */
  lemma SyncIsEnabled(s: System, who: nat) returns (s': System)
    requires Inv(s) && who in s.members
    ensures Next(s, SyncStore(who), s')
  {
    var m := s.members[who];
    SyncReachesEnd(s, m);
    var synced, index := Sync(s.disk, m.handle), m.index;
    if synced.changed {
      index := IndexExists(synced.handle.records);
    }
    s' := MovedTo(s, who, synced, index, []);
    assert Reindexed(synced.changed, m.index, synced.handle.records, index) && Moved(s, who, synced, index, [], s');
  }

  /** In every state of every run any open handle can answer any key. */
  lemma ExactIsEnabled(s: System, who: nat, key: string) returns (found: Option<string>, s': System)
    requires Inv(s) && who in s.members
    ensures Next(s, ExactKey(who, key, found), s')
  {
    hide NormalizeKey, Sync, LoadRecords, FrameOf, DiskInv;
    var middle := SyncIsEnabled(s, who);
    SyncKeepsInv(s, who, middle);
    found := ExactId(middle.members[who].handle.records, middle.members[who].index, key);
    s' := Counted(middle, who, found);
  }

  /** In every state of every run any open handle can compact, if the snapshot it would write can be read back. */
  lemma CompactIsEnabled(s: System, who: nat) returns (s': System)
    requires Inv(s) && who in s.members
    requires Compactable(Sync(s.disk, s.members[who].handle).handle.records)
    ensures Next(s, CompactStore(who), s')
  {
    var m := s.members[who];
    SyncReachesEnd(s, m);
    var compacted := Compact(s.disk, m.handle);
    var index := IndexExists(compacted.handle.records);
    s' := MovedTo(s, who, compacted, index, []).(logStart := |s.history|);
    assert IsIndexOf(index, compacted.handle.records) && Moved(s, who, compacted, index, [], s');
  }
}
