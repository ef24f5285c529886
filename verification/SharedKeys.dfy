/**
  What `exact` answers in every run of the store machine when several ids may
  share a key: exactly which steps keep each answer in agreement with a linear
  scan of the records of the handle (crates/tst-core/src/persistence.rs).
 */
module SharedKeys {
  import opened Wrappers
  import opened Memory
  import opened History
  import opened Wal
  import opened Store
  import opened Lookup
  import opened System
  import opened ExactRuns

  // ---------- every stored key is normal ----------

  ghost predicate EventsNormal(events: seq<WalEvent>) {
    forall i :: 0 <= i < |events| ==> EventNormal(events[i])
  }

  ghost predicate NormalInv(s: System) {
    && Inv(s) && EventsNormal(s.history)
    && LoadRecords(s.disk).Ok? && KeysNormal(LoadRecords(s.disk).value)
    && forall who :: who in s.members ==> KeysNormal(s.members[who].handle.records)
  }

  lemma {:induction false} FoldKeepsNormal(records: Records, events: seq<WalEvent>)
    requires KeysNormal(records) && EventsNormal(events)
    ensures KeysNormal(Fold(records, events))
    decreases |events|
  {
    hide NormalizeKey;
    if events != [] {
      assert EventNormal(events[0]);
      forall id | id in Apply(records, events[0]) ensures RecordNormal(Apply(records, events[0])[id], id) {
        assert id in records ==> RecordNormal(records[id], id);
      }
      FoldKeepsNormal(Apply(records, events[0]), events[1..]);
    }
  }

  lemma SyncedNormal(s: System, m: Member)
    requires NormalInv(s) && MemberInv(s, m) && KeysNormal(m.handle.records)
    ensures Sync(s.disk, m.handle).ok && KeysNormal(Sync(s.disk, m.handle).handle.records)
  {
    hide FrameOf, LoadRecords, KeysNormal;
    SyncReachesEnd(s, m);
    FoldKeepsNormal(LoadRecords(s.disk).value, s.history[s.logStart..]);
    FoldKeepsNormal(m.handle.records, s.history[m.seen..]);
  }

  lemma OpenedNormal(s: System)
    requires NormalInv(s)
    ensures KeysNormal(Open(s.disk).handle.records)
  {
    hide FrameOf, LoadRecords, KeysNormal;
    OpenReachesEnd(s);
    FoldKeepsNormal(LoadRecords(s.disk).value, s.history[s.logStart..]);
  }

  lemma CompactionNormal(disk: Disk, records: Records, stage: Stage)
    requires Compactable(records) && KeysNormal(records)
    requires ReadSnapshot(disk.snapshot).Ok? && LoadRecords(disk).Ok? && KeysNormal(LoadRecords(disk).value)
    ensures var later := DiskAt(disk, SnapshotFile(SnapshotPayloadOf(records).value), stage);
            LoadRecords(later).Ok? && KeysNormal(LoadRecords(later).value)
  {
    var file := SnapshotFile(SnapshotPayloadOf(records).value);
    if stage.Installed? || stage.Numbered? || stage.Truncated? {
      InstalledBase(DiskAt(disk, file, stage), records);
    } else if stage.PrimaryRenamed? && disk.snapshot.Some? {
      assert LoadRecords(DiskAt(disk, file, stage)) == Ok(map[]);
    } else {
      SurvivingBase(disk, file, stage);
    }
  }

  lemma AppendedNormal(s: System, m: Member, event: WalEvent)
    requires NormalInv(s) && MemberInv(s, m) && KeysNormal(m.handle.records) && EventNormal(event)
    requires Append(s.disk, m.handle, event).ok
    ensures KeysNormal(Append(s.disk, m.handle, event).handle.records)
    ensures LoadRecords(Append(s.disk, m.handle, event).disk) == LoadRecords(s.disk)
  {
    hide FrameOf, LoadRecords, KeysNormal, NormalizeKey;
    SyncedNormal(s, m);
    SyncReachesEnd(s, m);
    var records := Sync(s.disk, m.handle).handle.records;
    FoldKeepsNormal(records, [event]);
    assert Fold(records, [event]) == Apply(records, event);
    SameSnapshots(s.disk, Append(s.disk, m.handle, event).disk);
  }

  lemma AppendKeepsNormal(s: System, who: nat, event: WalEvent, s': System)
    requires NormalInv(s) && EventNormal(event) && AppendStep(s, who, event, s') && Inv(s')
    ensures NormalInv(s')
  {
    hide FrameOf, LoadRecords, KeysNormal, NormalizeKey, Append, Sync;
    AppendedNormal(s, s.members[who], event);
    assert s'.history == s.history + [event];
  }

  lemma CrashKeepsNormal(s: System, step: Step, s': System)
    requires NormalInv(s) && (step.CrashAppend? || step.CrashCompact?) && Next(s, step, s') && Inv(s')
    ensures NormalInv(s')
  {
    hide FrameOf, LoadRecords, KeysNormal, NormalizeKey, Sync;
    var m := s.members[step.who];
    SyncReachesEnd(s, m);
    SyncedNormal(s, m);
    var synced := Sync(s.disk, m.handle);
    SameSnapshots(s.disk, synced.disk);
    match step {
      case CrashAppend(who, event, written) => SameSnapshots(s.disk, s'.disk);
      case CrashCompact(who, stage) => CompactionNormal(synced.disk, synced.handle.records, stage);
    }
  }

  lemma CompactKeepsNormal(s: System, who: nat, s': System)
    requires NormalInv(s) && CompactStep(s, who, s') && Inv(s')
    ensures NormalInv(s')
  {
    hide FrameOf, LoadRecords, NormalizeKey, Sync, DiskAt;
    var m := s.members[who];
    SyncReachesEnd(s, m);
    SyncedNormal(s, m);
    var synced := Sync(s.disk, m.handle);
    SameSnapshots(s.disk, synced.disk);
    CompactionNormal(synced.disk, synced.handle.records, Truncated);
  }

  lemma SyncKeepsNormal(s: System, who: nat, s': System)
    requires NormalInv(s) && SyncStep(s, who, s') && Inv(s')
    ensures NormalInv(s')
  {
    hide FrameOf, LoadRecords, KeysNormal, NormalizeKey, Sync;
    var m := s.members[who];
    SyncReachesEnd(s, m);
    SyncedNormal(s, m);
    SameSnapshots(s.disk, s'.disk);
  }

  lemma OpenKeepsNormal(s: System, who: nat, s': System)
    requires NormalInv(s) && OpenStep(s, who, s') && Inv(s')
    ensures NormalInv(s')
  {
    hide FrameOf, LoadRecords, KeysNormal, NormalizeKey, Open;
    OpenReachesEnd(s);
    OpenedNormal(s);
    SameSnapshots(s.disk, s'.disk);
  }

  lemma CountingKeepsNormal(s: System, who: nat, found: Option<string>)
    requires NormalInv(s) && who in s.members
    requires found.Some? ==> found.value in s.members[who].handle.records
    requires Inv(Counted(s, who, found))
    ensures NormalInv(Counted(s, who, found))
  {
    hide FrameOf, LoadRecords, NormalizeKey;
  }

  lemma ExactKeepsNormal(s: System, who: nat, key: string, found: Option<string>, s': System)
    requires NormalInv(s) && ExactStep(s, who, key, found, s') && Inv(s')
    ensures NormalInv(s')
  {
    hide FrameOf, LoadRecords, KeysNormal, NormalizeKey, Sync;
    var middle :| SyncStep(s, who, middle) && ExactAnswers(middle, who, key, found)
      && s' == Counted(middle, who, found);
    SyncKeepsInv(s, who, middle);
    SyncKeepsNormal(s, who, middle);
    CountingKeepsNormal(middle, who, found);
  }

  /** Every step keeps the stored keys normal, on disk and in every handle. */
  lemma NextKeepsNormal(s: System, step: Step, s': System)
    requires NormalInv(s) && Next(s, step, s') && !LosesBase(s, step)
    ensures NormalInv(s')
  {
    hide Sync, Open, Append, LoadRecords, FrameOf, KeysNormal;
    NextKeepsInv(s, step, s');
    match step {
      case OpenStore(who) => OpenKeepsNormal(s, who, s');
      case SyncStore(who) => SyncKeepsNormal(s, who, s');
      case UpsertRecord(who, record) => AppendKeepsNormal(s, who, Upsert(Normalized(record)), s');
      case TombstoneId(who, id, timestampMs) => AppendKeepsNormal(s, who, Tombstone(id, timestampMs), s');
      case InvalidatePath(who, path, currentHash) => AppendKeepsNormal(s, who, StalePath(path, currentHash), s');
      case ExactKey(who, key, found) => ExactKeepsNormal(s, who, key, found, s');
      case CompactStore(who) => CompactKeepsNormal(s, who, s');
      case CloseStore(who) =>
      case CrashAppend(_, _, _) => CrashKeepsNormal(s, step, s');
      case CrashCompact(_, _) => CrashKeepsNormal(s, step, s');
    }
  }

  lemma InitNormal(s: System)
    requires Init(s)
    ensures NormalInv(s)
  {
    InitKeepsInv(s);
  }

  lemma {:induction false} RunKeepsNormal(states: seq<System>, steps: seq<Step>, i: nat)
    requires SafeRun(states, steps) && i < |states|
    ensures NormalInv(states[i])
  {
    hide LoadRecords, FrameOf, NormalizeKey;
    if i == 0 {
      InitNormal(states[0]);
    } else {
      RunKeepsNormal(states, steps, i - 1);
      NextKeepsNormal(states[i - 1], steps[i - 1], states[i]);
    }
  }

  // ---------- which steps keep an answer ----------

  /** What an event may do to the answer for a key, in a handle that has just synchronised. */
  ghost predicate EventKeepsAnswer(records: Records, index: Index, event: WalEvent, key: string) {
    match event
    case Upsert(record) => UpsertKeepsAnswer(records, index, record, key)
    case Tombstone(_, _) => true
    case StalePath(path, currentHash) => PathKeepsAnswer(records, index, path, currentHash, key)
  }

  lemma EventAgreesIff(event: WalEvent, records: Records, middle: Index, after: Index, key: string)
    requires KeysNormal(records) && KeysNormal(Apply(records, event)) && EventNormal(event) && NormalizeKey(key) != ""
    requires AnswersScan(records, middle, key) && IndexAfter(event, middle, Apply(records, event), after)
    ensures AnswersScan(Apply(records, event), after, key) <==> EventKeepsAnswer(records, middle, event, key)
  {
    hide NormalizeKey, AnswersScan, KeysNormal, UpsertKeepsAnswer, PathKeepsAnswer, Apply;
    match event {
      case Upsert(record) => UpsertAgreesIff(records, middle, record, key);
      case Tombstone(_, _) => RebuiltExactIsScan(Apply(records, event), after, key);
      case StalePath(path, currentHash) => StalePathAgreesIff(records, middle, path, currentHash, key);
    }
  }

  ghost predicate MemberAnswers(m: Member, key: string) {
    AnswersScan(m.handle.records, m.index, key)
  }

  ghost predicate AllAnswer(s: System, key: string) {
    forall who :: who in s.members ==> MemberAnswers(s.members[who], key)
  }

  /** The event of an append step. */
  function AppendedBy(step: Step): Option<WalEvent> {
    match step
    case UpsertRecord(_, record) => Some(Upsert(Normalized(record)))
    case TombstoneId(_, id, timestampMs) => Some(Tombstone(id, timestampMs))
    case InvalidatePath(_, path, currentHash) => Some(StalePath(path, currentHash))
    case _ => None
  }

  /** The index that the handle may have had after synchronising, before its event. */
  ghost predicate WasIndexed(s: System, who: nat, event: WalEvent, s': System, middle: Index) {
    && who in s.members && who in s'.members
    && var m, synced := s.members[who], Sync(s.disk, s.members[who].handle);
    && Reindexed(synced.changed, m.index, synced.handle.records, middle)
    && IndexAfter(event, middle, s'.members[who].handle.records, s'.members[who].index)
  }

  /** The step keeps the answer for a key: only an append can fail to. */
  ghost predicate KeepsAnswer(s: System, step: Step, s': System, key: string) {
    AppendedBy(step).Some? ==>
      forall middle :: WasIndexed(s, step.who, AppendedBy(step).value, s', middle) ==>
        && step.who in s.members
        && var synced := Sync(s.disk, s.members[step.who].handle).handle;
        EventKeepsAnswer(synced.records, middle, AppendedBy(step).value, key)
  }

  lemma ReindexedAnswers(changed: bool, before: Records, index: Index, records: Records, after: Index, key: string)
    requires Reindexed(changed, index, records, after) && (!changed ==> records == before)
    requires KeysNormal(records) && NormalizeKey(key) != "" && AnswersScan(before, index, key)
    ensures AnswersScan(records, after, key)
  {
    hide NormalizeKey, AnswersScan, KeysNormal;
    if changed {
      RebuiltExactIsScan(records, after, key);
    }
  }

  lemma SyncKeepsAnswers(s: System, who: nat, s': System, key: string)
    requires NormalInv(s) && AllAnswer(s, key) && NormalizeKey(key) != "" && SyncStep(s, who, s')
    ensures AllAnswer(s', key)
  {
    hide FrameOf, LoadRecords, KeysNormal, NormalizeKey, AnswersScan, Sync;
    var m := s.members[who];
    SyncReachesEnd(s, m);
    SyncedNormal(s, m);
    var synced := Sync(s.disk, m.handle);
    assert MemberAnswers(m, key);
    var index :| Reindexed(synced.changed, m.index, synced.handle.records, index)
      && Moved(s, who, synced, index, [], s');
    ReindexedAnswers(synced.changed, m.handle.records, m.index, synced.handle.records, index, key);
    OthersAnswer(s, who, s', key);
  }

  lemma OthersAnswer(s: System, who: nat, s': System, key: string)
    requires AllAnswer(s, key)
    requires forall other :: other in s'.members && other != who ==>
               other in s.members && s'.members[other] == s.members[other]
    ensures forall other :: other in s'.members && other != who ==> MemberAnswers(s'.members[other], key)
  {
  }

  lemma MiddleAnswers(s: System, who: nat, event: WalEvent, s': System, middle: Index, key: string)
    requires NormalInv(s) && AllAnswer(s, key) && NormalizeKey(key) != ""
    requires who in s.members && WasIndexed(s, who, event, s', middle)
    ensures AnswersScan(Sync(s.disk, s.members[who].handle).handle.records, middle, key)
  {
    hide FrameOf, LoadRecords, KeysNormal, NormalizeKey, AnswersScan, Sync;
    var m := s.members[who];
    SyncReachesEnd(s, m);
    SyncedNormal(s, m);
    var synced := Sync(s.disk, m.handle);
    assert MemberAnswers(m, key);
    ReindexedAnswers(synced.changed, m.handle.records, m.index, synced.handle.records, middle, key);
  }

  /** The handle's own answer after its event, whichever index it had in between. */
  lemma AppendAgreesIff(s: System, who: nat, event: WalEvent, s': System, middle: Index, key: string)
    requires NormalInv(s) && AllAnswer(s, key) && NormalizeKey(key) != "" && EventNormal(event)
    requires AppendStep(s, who, event, s') && WasIndexed(s, who, event, s', middle)
    ensures MemberAnswers(s'.members[who], key)
       <==> EventKeepsAnswer(Sync(s.disk, s.members[who].handle).handle.records, middle, event, key)
  {
    hide FrameOf, LoadRecords, KeysNormal, NormalizeKey, AnswersScan, Sync, EventKeepsAnswer, Apply, Reindexed;
    var m := s.members[who];
    MiddleAnswers(s, who, event, s', middle, key);
    SyncReachesEnd(s, m);
    SyncedNormal(s, m);
    AppendedNormal(s, m, event);
    EventAgreesIff(event, Sync(s.disk, m.handle).handle.records, middle, s'.members[who].index, key);
  }

  lemma AppendKeepsAnswersIff(s: System, step: Step, s': System, key: string)
    requires NormalInv(s) && AllAnswer(s, key) && NormalizeKey(key) != ""
    requires AppendedBy(step).Some? && Next(s, step, s')
    ensures AllAnswer(s', key) <==> KeepsAnswer(s, step, s', key)
  {
    hide FrameOf, LoadRecords, KeysNormal, NormalizeKey, AnswersScan, Sync, EventKeepsAnswer, Append, NormalInv,
      IndexAfter, Reindexed;
    var who, event := step.who, AppendedBy(step).value;
    assert AppendStep(s, who, event, s');
    OthersAnswer(s, who, s', key);
    forall middle | WasIndexed(s, who, event, s', middle)
      ensures MemberAnswers(s'.members[who], key)
         <==> EventKeepsAnswer(Sync(s.disk, s.members[who].handle).handle.records, middle, event, key)
    {
      AppendAgreesIff(s, who, event, s', middle, key);
    }
    var middle := IndexInBetween(s, who, event, s');
  }

  lemma IndexInBetween(s: System, who: nat, event: WalEvent, s': System) returns (middle: Index)
    requires AppendStep(s, who, event, s')
    ensures WasIndexed(s, who, event, s', middle)
  {
    hide FrameOf, LoadRecords, NormalizeKey, Sync, Append;
    var m := s.members[who];
    var index;
    middle, index :|
      && Reindexed(Sync(s.disk, m.handle).changed, m.index, Sync(s.disk, m.handle).handle.records, middle)
      && IndexAfter(event, middle, Append(s.disk, m.handle, event).handle.records, index)
      && Moved(s, who, Append(s.disk, m.handle, event), index, [event], s');
  }

  lemma TouchingKeepsAnswers(s: System, who: nat, found: Option<string>, key: string)
    requires AllAnswer(s, key) && who in s.members
    requires found.Some? ==> found.value in s.members[who].handle.records
    ensures AllAnswer(Counted(s, who, found), key)
  {
    hide NormalizeKey;
    var m := s.members[who];
    if found.Some? {
      assert MemberAnswers(m, key);
      var touched := Touched(m.handle.records, found.value);
      forall id ensures FoundByScan(touched, id, key) == FoundByScan(m.handle.records, id, key) {
      }
    }
  }

  lemma NoEventKeepsAnswer(s: System, step: Step, s': System, key: string)
    ensures AppendedBy(step).None? ==> KeepsAnswer(s, step, s', key)
  {
  }

  /** The step rebuilds the index of its handle. */
  predicate Rebuilds(s: System, step: Step) {
    match step
    case OpenStore(_) => true
    case TombstoneId(_, _, _) => true
    case CompactStore(_) => true
    case SyncStore(who) => who in s.members && Sync(s.disk, s.members[who].handle).changed
    case _ => false
  }

  /** Whatever was answered before, a rebuild brings the answer of the handle back into agreement with a scan. */
  lemma RebuildRestoresAnswer(s: System, step: Step, s': System, key: string)
    requires NormalInv(s) && Next(s, step, s') && Rebuilds(s, step) && NormalizeKey(key) != ""
    ensures step.who in s'.members && MemberAnswers(s'.members[step.who], key)
  {
    hide NormalizeKey, AnswersScan, FrameOf, LoadRecords, Sync, Open, Append, DiskAt;
    match step {
      case OpenStore(_) => OpenedNormal(s);
      case TombstoneId(who, id, timestampMs) => AppendedNormal(s, s.members[who], Tombstone(id, timestampMs));
      case CompactStore(who) => SyncedNormal(s, s.members[who]);
      case SyncStore(who) => SyncedNormal(s, s.members[who]);
    }
    RebuiltExactIsScan(s'.members[step.who].handle.records, s'.members[step.who].index, key);
  }

  /** A step keeps every handle's answer for a key in agreement with a scan exactly under its condition. */
  lemma NextKeepsAnswersIff(s: System, step: Step, s': System, key: string)
    requires NormalInv(s) && AllAnswer(s, key) && NormalizeKey(key) != ""
    requires Next(s, step, s')
    ensures AllAnswer(s', key) <==> KeepsAnswer(s, step, s', key)
  {
    NoEventKeepsAnswer(s, step, s', key);
    hide NormalizeKey, AnswersScan, KeysNormal, FrameOf, LoadRecords, KeepsAnswer, Sync, Open, Append, Compact;
    match step {
      case OpenStore(who) =>
        RebuildRestoresAnswer(s, step, s', key);
        OthersAnswer(s, who, s', key);
      case SyncStore(who) => SyncKeepsAnswers(s, who, s', key);
      case ExactKey(who, asked, found) =>
        var middle :| SyncStep(s, who, middle) && ExactAnswers(middle, who, asked, found)
          && s' == Counted(middle, who, found);
        SyncKeepsAnswers(s, who, middle, key);
        TouchingKeepsAnswers(middle, who, found, key);
      case CompactStore(who) =>
        RebuildRestoresAnswer(s, step, s', key);
        OthersAnswer(s, who, s', key);
      case UpsertRecord(_, _) => AppendKeepsAnswersIff(s, step, s', key);
      case TombstoneId(_, _, _) => AppendKeepsAnswersIff(s, step, s', key);
      case InvalidatePath(_, _, _) => AppendKeepsAnswersIff(s, step, s', key);
      case _ => OthersAnswer(s, step.who, s', key);
    }
  }

  // ---------- every run ----------

  /** As long as every step keeps the answer for a key, every handle's answer agrees with a scan of its records. */
  lemma {:induction false} RunKeepsAnswers(states: seq<System>, steps: seq<Step>, i: nat, key: string)
    requires SafeRun(states, steps) && i < |states| && NormalizeKey(key) != ""
    requires forall j :: 0 <= j < i ==> KeepsAnswer(states[j], steps[j], states[j + 1], key)
    ensures AllAnswer(states[i], key)
  {
    hide NormalizeKey, AnswersScan, FrameOf, LoadRecords, KeepsAnswer;
    if i > 0 {
      RunKeepsAnswers(states, steps, i - 1, key);
      RunKeepsNormal(states, steps, i - 1);
      NextKeepsAnswersIff(states[i - 1], steps[i - 1], states[i], key);
    }
  }

  /**
    With any number of ids to a key, `exact` answers with an id that the committed
    history names under that key, and finds none only if the history names none,
    whichever handle is asked and whatever crashed before.
   */
  lemma ExactAnswersSharedKeys(states: seq<System>, steps: seq<Step>, i: nat)
    requires SafeRun(states, steps) && i < |steps| && steps[i].ExactKey? && NormalizeKey(steps[i].key) != ""
    requires forall j :: 0 <= j < i ==> KeepsAnswer(states[j], steps[j], states[j + 1], steps[i].key)
    ensures match steps[i].found
            case None => forall id :: !HistoryNames(Committed(steps[..i]), id, steps[i].key)
            case Some(id) => HistoryNames(Committed(steps[..i]), id, steps[i].key)
  {
    hide NormalizeKey, FrameOf, LoadRecords, KeepsAnswer, Sync;
    var s, step := states[i], steps[i];
    RunKeepsAnswers(states, steps, i, step.key);
    RunKeepsNormal(states, steps, i);
    HistoryIsCommitted(states, steps, i);
    assert Next(s, step, states[i + 1]);
    var middle :| SyncStep(s, step.who, middle) && ExactAnswers(middle, step.who, step.key, step.found)
      && states[i + 1] == Counted(middle, step.who, step.found);
    SyncKeepsInv(s, step.who, middle);
    SyncKeepsAnswers(s, step.who, middle, step.key);
    SharedAnswer(middle, middle.members[step.who], step.key);
  }

  lemma SharedAnswer(s: System, m: Member, key: string)
    requires DiskInv(s) && MemberInv(s, m) && MemberAnswers(m, key) && m.seen == |s.history|
    ensures match ExactId(m.handle.records, m.index, key)
            case None => forall id :: !HistoryNames(s.history, id, key)
            case Some(id) => HistoryNames(s.history, id, key)
  {
    hide NormalizeKey, FrameOf, LoadRecords;
    assert s.history[..|s.history|] == s.history;
    forall id ensures FoundByScan(m.handle.records, id, key) <==> HistoryNames(s.history, id, key) {
      FoundIsNamed(m.handle.records, s.history, id, key);
    }
  }
}
