/**
  What `exact` answers in every run of the store machine, when the upserted
  records keep ids and non-empty keys in one-to-one correspondence: the id that
  the committed history itself names, whichever handle is asked.
 */
module ExactRuns {
  import opened Wrappers
  import opened Memory
  import opened History
  import opened Wal
  import opened Store
  import opened Lookup
  import opened System

  ghost predicate StepNamed(step: Step, keyOf: string -> string) {
    match step
    case UpsertRecord(_, record) => NormalizeKey(record.key) == keyOf(record.id)
    case CrashAppend(_, event, _) => EventNamed(event, keyOf)
    case _ => true
  }

  ghost predicate MemberNamed(m: Member, keyOf: string -> string) {
    NamesAgree(m.handle.records, keyOf) && IndexSound(m.handle.records, m.index, keyOf)
  }

  ghost predicate DiskNamed(s: System, keyOf: string -> string) {
    && EventsNamed(s.history, keyOf)
    && LoadRecords(s.disk).Ok? && NamesAgree(LoadRecords(s.disk).value, keyOf)
  }

  ghost predicate NamedInv(s: System, keyOf: string -> string) {
    && Inv(s) && DiskNamed(s, keyOf)
    && forall who :: who in s.members ==> MemberNamed(s.members[who], keyOf)
  }

  // ---------- synchronising ----------

  lemma SuffixNamed(events: seq<WalEvent>, from: nat, keyOf: string -> string)
    requires EventsNamed(events, keyOf) && from <= |events|
    ensures EventsNamed(events[from..], keyOf)
  {
  }

  lemma SyncedNames(s: System, m: Member, keyOf: string -> string)
    requires Inv(s) && DiskNamed(s, keyOf) && MemberInv(s, m) && MemberNamed(m, keyOf)
    ensures Sync(s.disk, m.handle).ok
    ensures NamesAgree(Sync(s.disk, m.handle).handle.records, keyOf)
  {
    SyncReachesEnd(s, m);
    SuffixNamed(s.history, s.logStart, keyOf);
    SuffixNamed(s.history, m.seen, keyOf);
    FoldKeepsNames(LoadRecords(s.disk).value, s.history[s.logStart..], keyOf);
    FoldKeepsNames(m.handle.records, s.history[m.seen..], keyOf);
  }

  lemma ReindexedIsSound(s: System, m: Member, index: Index, keyOf: string -> string)
    requires OneToOne(keyOf) && Inv(s) && DiskNamed(s, keyOf) && MemberInv(s, m) && MemberNamed(m, keyOf)
    requires var synced := Sync(s.disk, m.handle);
             Reindexed(synced.changed, m.index, synced.handle.records, index)
    ensures NamesAgree(Sync(s.disk, m.handle).handle.records, keyOf)
    ensures IndexSound(Sync(s.disk, m.handle).handle.records, index, keyOf)
  {
    SyncedNames(s, m, keyOf);
    SyncReachesEnd(s, m);
    var synced := Sync(s.disk, m.handle);
    if synced.changed {
      RebuiltIsSound(synced.handle.records, index, keyOf);
    }
  }

  lemma OthersNamed(s: System, who: nat, s': System, keyOf: string -> string)
    requires NamedInv(s, keyOf)
    requires forall other :: other in s'.members && other != who ==>
        other in s.members && s'.members[other] == s.members[other]
    ensures forall other :: other in s'.members && other != who ==> MemberNamed(s'.members[other], keyOf)
  {
  }

  /** What a step of one handle must show to keep the names everywhere. */
  lemma MovedKeepsNames(s: System, who: nat, effect: Effect, index: Index, events: seq<WalEvent>, s': System,
                        keyOf: string -> string)
    requires NamedInv(s, keyOf) && Inv(s') && Moved(s, who, effect, index, events, s')
    requires EventsNamed(events, keyOf)
    requires LoadRecords(effect.disk).Ok? && NamesAgree(LoadRecords(effect.disk).value, keyOf)
    requires NamesAgree(effect.handle.records, keyOf) && IndexSound(effect.handle.records, index, keyOf)
    ensures NamedInv(s', keyOf)
  {
    hide Inv, FrameOf, NormalizeKey, LoadRecords, Log;
    OthersNamed(s, who, s', keyOf);
    assert s'.history == s.history + events;
    assert EventsNamed(s'.history, keyOf);
  }

  // ---------- the steps ----------

  lemma OpenKeepsNames(s: System, who: nat, s': System, keyOf: string -> string)
    requires OneToOne(keyOf) && NamedInv(s, keyOf) && OpenStep(s, who, s')
    ensures NamedInv(s', keyOf)
  {
    hide NormalizeKey, FrameOf, Log, LoadRecords;
    OpenReachesEnd(s);
    var index :| IsIndexOf(index, Open(s.disk).handle.records) && Moved(s, who, Open(s.disk), index, [], s');
    SyncedKeepsInv(s, who, Open(s.disk), index, s');
    OpenedNames(s, keyOf);
    RebuiltIsSound(Open(s.disk).handle.records, index, keyOf);
    SameSnapshots(s.disk, Open(s.disk).disk);
    MovedKeepsNames(s, who, Open(s.disk), index, [], s', keyOf);
  }

  lemma OpenedNames(s: System, keyOf: string -> string)
    requires Inv(s) && DiskNamed(s, keyOf)
    ensures NamesAgree(Open(s.disk).handle.records, keyOf)
  {
    OpenReachesEnd(s);
    SuffixNamed(s.history, s.logStart, keyOf);
    FoldKeepsNames(LoadRecords(s.disk).value, s.history[s.logStart..], keyOf);
  }

  lemma SyncKeepsNames(s: System, who: nat, s': System, keyOf: string -> string)
    requires OneToOne(keyOf) && NamedInv(s, keyOf) && SyncStep(s, who, s')
    ensures NamedInv(s', keyOf)
  {
    hide NormalizeKey, FrameOf, Log, LoadRecords, Sync;
    var m := s.members[who];
    var synced := Sync(s.disk, m.handle);
    SyncReachesEnd(s, m);
    var index :| Reindexed(synced.changed, m.index, synced.handle.records, index)
      && Moved(s, who, synced, index, [], s');
    SyncKeepsInv(s, who, s');
    ReindexedIsSound(s, m, index, keyOf);
    SameSnapshots(s.disk, synced.disk);
    MovedKeepsNames(s, who, synced, index, [], s', keyOf);
  }

  lemma EventKeepsSound(event: WalEvent, records: Records, middle: Index, after: Index, keyOf: string -> string)
    requires OneToOne(keyOf) && NamesAgree(records, keyOf) && IndexSound(records, middle, keyOf)
        && EventNamed(event, keyOf)
    requires IndexAfter(event, middle, Apply(records, event), after)
    ensures NamesAgree(Apply(records, event), keyOf) && IndexSound(Apply(records, event), after, keyOf)
  {
    FoldKeepsNames(records, [event], keyOf);
    assert Fold(records, [event]) == Apply(records, event);
    match event {
      case Upsert(record) => UpsertKeepsSound(records, middle, record, keyOf);
      case Tombstone(_, _) => RebuiltIsSound(Apply(records, event), after, keyOf);
      case StalePath(path, currentHash) => StalePathKeepsSound(records, middle, path, currentHash, keyOf);
    }
  }

  lemma AppendedNames(s: System, m: Member, event: WalEvent, middle: Index, index: Index, keyOf: string -> string)
    requires OneToOne(keyOf) && Inv(s) && DiskNamed(s, keyOf) && MemberInv(s, m) && MemberNamed(m, keyOf)
    requires EventNamed(event, keyOf) && Append(s.disk, m.handle, event).ok
    requires var synced := Sync(s.disk, m.handle);
             Reindexed(synced.changed, m.index, synced.handle.records, middle)
    requires IndexAfter(event, middle, Append(s.disk, m.handle, event).handle.records, index)
    ensures MemberNamed(Member(Append(s.disk, m.handle, event).handle, index, |s.history| + 1), keyOf)
    ensures LoadRecords(Append(s.disk, m.handle, event).disk) == LoadRecords(s.disk)
  {
    SyncReachesEnd(s, m);
    ReindexedIsSound(s, m, middle, keyOf);
    EventKeepsSound(event, Sync(s.disk, m.handle).handle.records, middle, index, keyOf);
    SameSnapshots(s.disk, Append(s.disk, m.handle, event).disk);
  }

  lemma AppendKeepsNames(s: System, who: nat, event: WalEvent, s': System, keyOf: string -> string)
    requires OneToOne(keyOf) && NamedInv(s, keyOf) && EventNamed(event, keyOf) && AppendStep(s, who, event, s')
    ensures NamedInv(s', keyOf)
  {
    hide NormalizeKey, FrameOf, LoadRecords, Log, Append, Sync;
    var m := s.members[who];
    var synced, appended := Sync(s.disk, m.handle), Append(s.disk, m.handle, event);
    var middle, index :|
      && Reindexed(synced.changed, m.index, synced.handle.records, middle)
      && IndexAfter(event, middle, appended.handle.records, index)
      && Moved(s, who, appended, index, [event], s');
    AppendKeepsInv(s, who, event, s');
    AppendedNames(s, m, event, middle, index, keyOf);
    MovedKeepsNames(s, who, appended, index, [event], s', keyOf);
  }

  lemma CompactionNames(disk: Disk, records: Records, stage: Stage, keyOf: string -> string)
    requires Compactable(records) && NamesAgree(records, keyOf)
    requires ReadSnapshot(disk.snapshot).Ok? && LoadRecords(disk).Ok? && NamesAgree(LoadRecords(disk).value, keyOf)
    ensures var later := DiskAt(disk, SnapshotFile(SnapshotPayloadOf(records).value), stage);
            LoadRecords(later).Ok? && NamesAgree(LoadRecords(later).value, keyOf)
  {
    var file := SnapshotFile(SnapshotPayloadOf(records).value);
    if stage.Installed? || stage.Numbered? || stage.Truncated? {
      InstalledBase(DiskAt(disk, file, stage), records);
    } else if stage.PrimaryRenamed? && disk.snapshot.Some? {
      assert LoadRecords(DiskAt(disk, file, stage)) == Ok(map[]);
    } else {
      SurvivingBase(disk, file, stage);
    }
  }

  lemma CompactKeepsNames(s: System, who: nat, s': System, keyOf: string -> string)
    requires OneToOne(keyOf) && NamedInv(s, keyOf) && CompactStep(s, who, s')
    ensures NamedInv(s', keyOf)
  {
    hide NormalizeKey, FrameOf, LoadRecords, Log, Sync, DiskAt;
    var m := s.members[who];
    var synced, compacted := Sync(s.disk, m.handle), Compact(s.disk, m.handle);
    var index :| IsIndexOf(index, compacted.handle.records) && Moved(s, who, compacted, index, [], s');
    CompactKeepsInv(s, who, s');
    SyncReachesEnd(s, m);
    SyncedNames(s, m, keyOf);
    SameSnapshots(s.disk, synced.disk);
    CompactionNames(synced.disk, synced.handle.records, Truncated, keyOf);
    RebuiltIsSound(compacted.handle.records, index, keyOf);
    MovedKeepsNames(s, who, compacted, index, [], s', keyOf);
  }

  lemma CrashKeepsNames(s: System, step: Step, s': System, keyOf: string -> string)
    requires OneToOne(keyOf) && NamedInv(s, keyOf) && StepNamed(step, keyOf)
    requires step.CrashAppend? || step.CrashCompact?
    requires Next(s, step, s') && !LosesBase(s, step)
    ensures NamedInv(s', keyOf)
  {
    hide NormalizeKey, FrameOf, LoadRecords;
    NextKeepsInv(s, step, s');
    var m := s.members[step.who];
    SyncReachesEnd(s, m);
    SyncedNames(s, m, keyOf);
    var synced := Sync(s.disk, m.handle);
    SameSnapshots(s.disk, synced.disk);
    match step {
      case CrashAppend(who, event, written) => SameSnapshots(s.disk, s'.disk);
      case CrashCompact(who, stage) => CompactionNames(synced.disk, synced.handle.records, stage, keyOf);
    }
    OthersNamed(s, step.who, s', keyOf);
  }

  lemma TouchingKeepsNames(records: Records, index: Index, id: string, keyOf: string -> string)
    requires id in records && NamesAgree(records, keyOf) && IndexSound(records, index, keyOf)
    ensures NamesAgree(Touched(records, id), keyOf) && IndexSound(Touched(records, id), index, keyOf)
  {
    forall other | other in Touched(records, id)
      ensures RecordNamed(Touched(records, id)[other], other, keyOf)
          && Usable(Touched(records, id)[other]) == Usable(records[other])
    {
      assert RecordNamed(records[other], other, keyOf);
    }
  }

  lemma ExactKeepsNames(s: System, who: nat, key: string, found: Option<string>, s': System, keyOf: string -> string)
    requires OneToOne(keyOf) && NamedInv(s, keyOf) && ExactStep(s, who, key, found, s')
    ensures NamedInv(s', keyOf)
  {
    var middle :| SyncStep(s, who, middle) && ExactAnswers(middle, who, key, found)
      && s' == Counted(middle, who, found);
    SyncKeepsNames(s, who, middle, keyOf);
    CountingKeepsNames(middle, who, found, keyOf);
  }

  lemma CountingKeepsNames(s: System, who: nat, found: Option<string>, keyOf: string -> string)
    requires NamedInv(s, keyOf) && who in s.members
    requires found.Some? ==> found.value in s.members[who].handle.records
    ensures NamedInv(Counted(s, who, found), keyOf)
  {
    hide NormalizeKey, FrameOf, LoadRecords;
    CountingKeepsInv(s, who, found);
    var m := s.members[who];
    if found.Some? {
      TouchingKeepsNames(m.handle.records, m.index, found.value, keyOf);
    }
    OthersNamed(s, who, Counted(s, who, found), keyOf);
  }

  lemma NextKeepsNames(s: System, step: Step, s': System, keyOf: string -> string)
    requires OneToOne(keyOf) && NamedInv(s, keyOf) && StepNamed(step, keyOf) && Next(s, step, s') && !LosesBase(s, step)
    ensures NamedInv(s', keyOf)
  {
    hide Sync, Open, Append, LoadRecords, FrameOf, NormalizeKey;
    match step {
      case OpenStore(who) => OpenKeepsNames(s, who, s', keyOf);
      case SyncStore(who) => SyncKeepsNames(s, who, s', keyOf);
      case UpsertRecord(who, record) => AppendKeepsNames(s, who, Upsert(Normalized(record)), s', keyOf);
      case TombstoneId(who, id, timestampMs) => AppendKeepsNames(s, who, Tombstone(id, timestampMs), s', keyOf);
      case InvalidatePath(who, path, currentHash) => AppendKeepsNames(s, who, StalePath(path, currentHash), s', keyOf);
      case ExactKey(who, key, found) => ExactKeepsNames(s, who, key, found, s', keyOf);
      case CompactStore(who) => CompactKeepsNames(s, who, s', keyOf);
      case CloseStore(who) => NextKeepsInv(s, step, s');
      case CrashAppend(_, _, _) => CrashKeepsNames(s, step, s', keyOf);
      case CrashCompact(_, _) => CrashKeepsNames(s, step, s', keyOf);
    }
  }

  // ---------- every run ----------

  lemma InitNamed(s: System, keyOf: string -> string)
    requires Init(s)
    ensures NamedInv(s, keyOf)
  {
    InitKeepsInv(s);
  }

  lemma {:induction false} RunKeepsNames(states: seq<System>, steps: seq<Step>, i: nat, keyOf: string -> string)
    requires OneToOne(keyOf) && SafeRun(states, steps) && i < |states|
    requires forall j :: 0 <= j < |steps| ==> StepNamed(steps[j], keyOf)
    ensures NamedInv(states[i], keyOf)
  {
    hide NormalizeKey, FrameOf, LoadRecords, Log, Next;
    if i == 0 {
      InitNamed(states[0], keyOf);
    } else {
      RunKeepsNames(states, steps, i - 1, keyOf);
      NextKeepsNames(states[i - 1], steps[i - 1], states[i], keyOf);
    }
  }

  /** The history has a live, verified, fresh record of this id under this key. */
  ghost predicate HistoryNames(events: seq<WalEvent>, id: string, key: string) {
    && id in Outcome(events)
    && Outcome(events)[id].verified && !Outcome(events)[id].stale
    && Outcome(events)[id].normalizedKey == NormalizeKey(key)
  }

  lemma FoundIsNamed(records: Records, events: seq<WalEvent>, id: string, key: string)
    requires Live(records) == Outcome(events)
    ensures FoundByScan(records, id, key) <==> HistoryNames(events, id, key)
  {
    assert id in Live(records) <==> id in records && !records[id].tombstone;
  }

  /** Whatever other handles did and whatever crashed, `exact` answers for a key exactly what the history names. */
  lemma ExactAnswersHistory(states: seq<System>, steps: seq<Step>, i: nat, keyOf: string -> string)
    requires OneToOne(keyOf) && SafeRun(states, steps) && i < |steps|
    requires forall j :: 0 <= j < |steps| ==> StepNamed(steps[j], keyOf)
    requires steps[i].ExactKey? && NormalizeKey(steps[i].key) != ""
    ensures forall id :: steps[i].found == Some(id) <==> HistoryNames(Committed(steps[..i]), id, steps[i].key)
  {
    var s, step := states[i], steps[i];
    RunKeepsNames(states, steps, i, keyOf);
    HistoryIsCommitted(states, steps, i);
    assert Next(s, step, states[i + 1]);
    var middle :| SyncStep(s, step.who, middle) && ExactAnswers(middle, step.who, step.key, step.found)
      && states[i + 1] == Counted(middle, step.who, step.found);
    SyncKeepsInv(s, step.who, middle);
    SyncKeepsNames(s, step.who, middle, keyOf);
    SyncedMemberAnswers(middle, middle.members[step.who], step.key, keyOf);
  }

  lemma SyncedMemberAnswers(s: System, m: Member, key: string, keyOf: string -> string)
    requires OneToOne(keyOf) && DiskInv(s) && MemberInv(s, m) && MemberNamed(m, keyOf) && m.seen == |s.history|
    requires NormalizeKey(key) != ""
    ensures forall id :: ExactId(m.handle.records, m.index, key) == Some(id) <==> HistoryNames(s.history, id, key)
  {
    assert s.history[..|s.history|] == s.history;
    ExactIsScan(m.handle.records, m.index, key, keyOf);
    forall id ensures ExactId(m.handle.records, m.index, key) == Some(id) <==> HistoryNames(s.history, id, key) {
      FoundIsNamed(m.handle.records, s.history, id, key);
    }
  }
}
