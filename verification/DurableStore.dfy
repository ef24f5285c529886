/**
  The store handle as the Rust crate has it (crates/tst-core/src/persistence.rs):
  an object whose methods update its records, its position, its trie and the
  files of a shared directory in place. Each method is proved to have the effect
  that `Store` gives its locked sections, and to leave the trie as `System` says
  a step may leave it.
 */
module DurableStore {
  import opened Wrappers
  import opened Memory
  import opened History
  import opened Wal
  import opened Store
  import opened Lookup
  import opened System
  import opened Trie

  /** The files that all handles on one directory share. */
  class Directory {
    var snapshot: Option<seq<byte>>
    var previous: Option<seq<byte>>
    var staged: Option<seq<byte>>
    var generation: nat
    var wal: seq<byte>

    constructor ()
      ensures Contents() == Disk(None, None, None, 0, [])
    {
      snapshot, previous, staged, generation, wal := None, None, None, 0, [];
    }

    function Contents(): Disk
      reads this
    {
      Disk(snapshot, previous, staged, generation, wal)
    }
  }

  ghost function StaleIds(records: Records): set<string> {
    set id | id in records && records[id].stale
  }

  /** The records that a path event marks. */
  ghost function NewlyStale(records: Records, path: string, currentHash: string): set<string> {
    set id | id in records && !records[id].stale && BuiltOnOther(records[id].fileHashes, path, currentHash)
  }

  lemma StaleCountGrows(records: Records, path: string, currentHash: string)
    ensures var after := Apply(records, StalePath(path, currentHash));
            |StaleIds(after)| == |StaleIds(records)| + |NewlyStale(records, path, currentHash)|
  {
    var after := Apply(records, StalePath(path, currentHash));
    assert StaleIds(after) == StaleIds(records) + NewlyStale(records, path, currentHash);
    assert StaleIds(records) !! NewlyStale(records, path, currentHash);
  }

  /** A scan that has found these events already and goes on with the rest. */
  ghost function Continued(events: seq<WalEvent>, size: nat, rest: LogScan): LogScan {
    LogScan(events + rest.events, size + rest.size, rest.ok)
  }

  lemma ContinueWith(events: seq<WalEvent>, size: nat, bytes: seq<byte>)
    requires NextFrame(bytes).Decoded?
    ensures var next := NextFrame(bytes);
            var later := Continued(events + [next.event], size + next.size, Scan(bytes[next.size..]));
            Continued(events, size, Scan(bytes)) == later
  {
    var next := NextFrame(bytes);
    var rest := Scan(bytes[next.size..]);
    assert Scan(bytes) == LogScan([next.event] + rest.events, next.size + rest.size, rest.ok);
    assert events + ([next.event] + rest.events) == events + [next.event] + rest.events;
  }

  class DurableStore {
    const directory: Directory
    var records: Records
    var trie: TernaryTrie
    var exclusive: bool
    var snapshotGeneration: nat
    var walPosition: nat

    ghost predicate Valid()
      reads this, trie
    {
      trie.Valid()
    }

    function State(): Handle
      reads this
    {
      Handle(records, snapshotGeneration, walPosition)
    }

    /** The directory and the handle are as the effect says. */
    ghost predicate Shows(effect: Effect)
      reads this, directory
    {
      directory.Contents() == effect.disk && State() == effect.handle
    }

    constructor (directory: Directory, exclusive: bool)
      ensures Valid() && fresh(trie) && trie.contents == map[]
      ensures this.directory == directory && this.exclusive == exclusive && State() == Handle(map[], 0, 0)
    {
      this.directory, this.exclusive := directory, exclusive;
      records, snapshotGeneration, walPosition := map[], 0, 0;
      trie := new TernaryTrie();
    }

    static method Open(directory: Directory, lockFree: bool) returns (store: Result<DurableStore>)
      modifies directory
      ensures store.Ok? <==> old(Store.Open(directory.Contents())).ok
      ensures store.Ok? ==>
                && fresh(store.value) && fresh(store.value.trie) && store.value.Valid()
                && store.value.directory == directory && store.value.exclusive == lockFree
                && store.value.Shows(old(Store.Open(directory.Contents())))
                && IsIndexOf(store.value.trie.contents, store.value.records)
    {
      var handle := new DurableStore(directory, lockFree);
      var ok := handle.ReloadSnapshot();
      if !ok {
        return Err;
      }
      var changed;
      changed, ok := handle.ReplayWal();
      if !ok {
        return Err;
      }
      handle.RebuildTrie();
      return Ok(handle);
    }

    method ReloadSnapshot() returns (ok: bool)
      modifies this`records, this`snapshotGeneration, this`walPosition
      ensures var effect := old(Reload(directory.Contents(), State()));
              Shows(effect) && ok == effect.ok
    {
      var loaded := LoadRecords(directory.Contents());
      if loaded.Err? {
        return false;
      }
      records := loaded.value;
      snapshotGeneration := directory.generation;
      walPosition := 0;
      ok := true;
    }

    method ApplyEvent(event: WalEvent)
      modifies this`records
      ensures records == Apply(old(records), event) && EventDoes(event, old(records), records)
    {
      ApplyDoes(records, event);
      match event {
        case Upsert(record) =>
          records := records[record.id := record];
        case Tombstone(id, timestampMs) =>
          if id in records {
            records := records[id := records[id].(tombstone := true, updatedMs := timestampMs)];
          }
        case StalePath(path, currentHash) =>
          records := map id | id in records ::
            if Conflicts(records[id], path, currentHash) then records[id].(stale := true) else records[id];
      }
    }

    /** The loop of `replay_wal`: applies every valid frame from the position on. */
    method ReplayFrames() returns (validEnd: nat, applied: bool, ok: bool)
      requires walPosition <= |directory.wal|
      modifies this`records
      ensures var scanned := Scan(directory.wal[walPosition..]);
              && ok == scanned.ok && records == Fold(old(records), scanned.events)
              && (ok ==> validEnd == walPosition + scanned.size && applied == (scanned.events != []))
    {
      hide NextFrame, Apply, EventDoes;
      validEnd, applied := walPosition, false;
      ghost var events := [];
      ghost var whole := Scan(directory.wal[walPosition..]);
      assert [] + whole.events == whole.events;
      while true
        invariant walPosition <= validEnd <= |directory.wal|
        invariant records == Fold(old(records), events)
        invariant applied == (events != [])
        invariant whole == Continued(events, validEnd - walPosition, Scan(directory.wal[validEnd..]))
        decreases |directory.wal| - validEnd
      {
        var rest := directory.wal[validEnd..];
        match NextFrame(rest) {
          case Stop =>
            assert events + [] == events;
            return validEnd, applied, true;
          case Undecodable =>
            assert events + [] == events;
            return validEnd, applied, false;
          case Decoded(event, size) =>
            ApplyEvent(event);
            FoldConcat(old(records), events, [event]);
            ContinueWith(events, validEnd - walPosition, rest);
            assert rest[size..] == directory.wal[validEnd + size..];
            events := events + [event];
            applied := true;
            validEnd := validEnd + size;
        }
      }
    }

    method ReplayWal() returns (changed: bool, ok: bool)
      modifies this`records, this`snapshotGeneration, this`walPosition, directory`wal
      ensures var effect := old(Replay(directory.Contents(), State()));
              Shows(effect) && ok == effect.ok && (ok ==> changed == effect.changed)
    {
      hide LoadRecords, Fold, Scan;
      changed := false;
      var total := |directory.wal|;
      if total < walPosition {
        ok := ReloadSnapshot();
        if !ok {
          return;
        }
        total := |directory.wal|;
        changed := true;
      }
      if total <= walPosition {
        return changed, true;
      }
      var validEnd, applied;
      validEnd, applied, ok := ReplayFrames();
      if !ok {
        return;
      }
      changed := changed || applied;
      if validEnd < total {
        directory.wal := directory.wal[..validEnd];
        changed := true;
      }
      walPosition := validEnd;
    }

    method SyncWalLocked() returns (changed: bool, ok: bool)
      modifies this`records, this`snapshotGeneration, this`walPosition, directory`wal
      ensures var effect := old(Sync(directory.Contents(), State()));
              Shows(effect) && ok == effect.ok && (ok ==> changed == effect.changed)
    {
      changed := false;
      if directory.generation != snapshotGeneration {
        ok := ReloadSnapshot();
        if !ok {
          return;
        }
        changed := true;
      }
      var replayed;
      replayed, ok := ReplayWal();
      changed := changed || replayed;
    }

    /** Rebuilds the trie in whatever order the records are walked. */
    method RebuildTrie()
      modifies this`trie
      ensures Valid() && fresh(trie) && IsIndexOf(trie.contents, records)
    {
      hide NormalizeKey, Represents, Separate, Footprint, Shape, Arena;
      trie := new TernaryTrie();
      var todo := records.Keys;
      while todo != {}
        invariant fresh(trie) && trie.Valid() && todo <= records.Keys
        invariant Filed(trie.contents, records, records.Keys - todo)
        decreases |todo|
      {
        var id :| id in todo;
        if Usable(records[id]) {
          FileOne(trie.contents, records, records.Keys - todo, id);
          trie.Insert(records[id].normalizedKey, records[id].id);
        }
        assert records.Keys - (todo - {id}) == (records.Keys - todo) + {id};
        todo := todo - {id};
      }
    }

    method SyncWalIfNeeded() returns (ok: bool)
      requires Valid()
      modifies this`records, this`snapshotGeneration, this`walPosition, this`trie, directory`wal
      ensures var effect := old(Sync(directory.Contents(), State()));
              && Shows(effect) && ok == effect.ok
              && Valid() && (trie == old(trie) || fresh(trie))
              && Reindexed(effect.ok && effect.changed, old(trie.contents), records, trie.contents)
    {
      var changed;
      changed, ok := SyncWalLocked();
      if ok && changed {
        RebuildTrie();
      }
    }

    method Append(event: WalEvent) returns (ok: bool)
      requires Valid()
      modifies this`records, this`snapshotGeneration, this`walPosition, this`trie, directory`wal
      ensures var synced := old(Sync(directory.Contents(), State()));
              var effect := old(AppendLocked(directory.Contents(), State(), event));
              && Shows(effect) && ok == effect.ok
              && Valid() && (trie == old(trie) || fresh(trie))
              && Reindexed(FrameOf(event).Some? && synced.ok && synced.changed, old(trie.contents), records,
                           trie.contents)
    {
      var frame := FrameOf(event);
      if frame.None? {
        return false;
      }
      ok := SyncWalIfNeeded();
      if !ok {
        return;
      }
      directory.wal := directory.wal + frame.value;
      walPosition := |directory.wal|;
    }

    method UpsertRecord(record: MemoryRecord) returns (ok: bool)
      requires Valid()
      modifies this, trie, directory
      ensures var event := Upsert(Normalized(record));
              var synced := old(Sync(directory.Contents(), State()));
              var effect := old(Store.Append(directory.Contents(), State(), event));
              && Shows(effect) && ok == effect.ok && exclusive == old(exclusive)
              && Valid() && (trie == old(trie) || fresh(trie))
              && (ok ==> exists middle ::
                    && Reindexed(synced.changed, old(trie.contents), synced.handle.records, middle)
                    && IndexAfter(event, middle, records, trie.contents))
    {
      var normalized := Normalized(record);
      var event := Upsert(normalized);
      ok := Append(event);
      if !ok {
        return;
      }
      ghost var middle := trie.contents;
      ApplyEvent(event);
      if !normalized.tombstone {
        trie.Insert(normalized.normalizedKey, normalized.id);
      }
      assert IndexAfter(event, middle, records, trie.contents);
    }

    /** False when the id is unknown after a synchronisation; nothing is logged then. */
    method TombstoneId(id: string, timestampMs: nat) returns (known: Result<bool>)
      requires Valid()
      modifies this, trie, directory
      ensures var event := Tombstone(id, timestampMs);
              var synced := old(Sync(directory.Contents(), State()));
              var effect := old(Store.Append(directory.Contents(), State(), event));
              && exclusive == old(exclusive) && Valid() && (trie == old(trie) || fresh(trie))
              && (known == Ok(true) ==> effect.ok && Shows(effect) && IsIndexOf(trie.contents, records))
              && (known != Ok(true) ==>
                    Shows(synced) && Reindexed(synced.ok && synced.changed, old(trie.contents), records, trie.contents))
              && (known == Ok(true) <==> synced.ok && id in synced.handle.records && FrameOf(event).Some?)
              && (known == Ok(false) <==> synced.ok && id !in synced.handle.records)
    {
      hide Replay, Reload, FrameOf;
      var ok := SyncWalIfNeeded();
      if !ok {
        return Err;
      }
      if id !in records {
        return Ok(false);
      }
      var event := Tombstone(id, timestampMs);
      SyncIsIdempotent(old(directory.Contents()), old(State()));
      ok := Append(event);
      if !ok {
        return Err;
      }
      ApplyEvent(event);
      RebuildTrie();
      return Ok(true);
    }

    method CountStale() returns (count: nat)
      ensures count == |StaleIds(records)|
    {
      count := |set id | id in records && records[id].stale|;
      assert count == |StaleIds(records)|;
    }

    /** Counts the records that the event marks. */
    method InvalidatePath(path: string, currentHash: string) returns (count: Result<nat>)
      requires Valid()
      modifies this, trie, directory
      ensures var event := StalePath(path, currentHash);
              var synced := old(Sync(directory.Contents(), State()));
              var effect := old(Store.Append(directory.Contents(), State(), event));
              && exclusive == old(exclusive) && Valid() && (trie == old(trie) || fresh(trie))
              && Reindexed(synced.ok && synced.changed, old(trie.contents), synced.handle.records, trie.contents)
              && (count.Ok? <==> synced.ok && FrameOf(event).Some?)
              && (count.Ok? ==>
                    && effect.ok && Shows(effect)
                    && count.value == |NewlyStale(synced.handle.records, path, currentHash)|)
              && (count.Err? ==> Shows(synced))
    {
      hide Sync, FrameOf, Represents, Separate, Footprint, Shape, Arena, NormalizeKey, IsIndexOf, EventDoes, NewlyStale,
        StaleIds;
      var ok := SyncWalIfNeeded();
      if !ok {
        return Err;
      }
      var before := CountStale();
      ghost var synced := records;
      var event := StalePath(path, currentHash);
      SyncIsIdempotent(old(directory.Contents()), old(State()));
      ok := Append(event);
      if !ok {
        return Err;
      }
      ApplyEvent(event);
      var after := CountStale();
      StaleCountGrows(synced, path, currentHash);
      return Ok(if after < before then 0 else after - before);
    }

    /** Answers even when the synchronisation fails, from whatever the handle holds then. */
    method Exact(key: string) returns (found: Option<MemoryRecord>)
      requires Valid()
      modifies this, trie, directory
      ensures var synced := old(Sync(directory.Contents(), State()));
              && directory.Contents() == synced.disk && exclusive == old(exclusive)
              && Valid() && (trie == old(trie) || fresh(trie))
              && Reindexed(synced.ok && synced.changed, old(trie.contents), synced.handle.records, trie.contents)
              && match ExactId(synced.handle.records, trie.contents, key)
                 case None => found == None && State() == synced.handle
                 case Some(id) =>
                   && State() == synced.handle.(records := Touched(synced.handle.records, id))
                   && found == Some(records[id])
    {
      hide Sync, NormalizeKey;
      var _ := SyncWalIfNeeded();
      var id := trie.Get(key);
      if id.None? || id.value !in records {
        return None;
      }
      var record := records[id.value];
      if record.tombstone || record.stale || !record.verified {
        return None;
      }
      records := records[id.value := Accessed(record)];
      return Some(records[id.value]);
    }

    /** Without the writer lock a compaction only flushes. */
    method Compact(lockFree: bool) returns (ok: bool)
      requires Valid()
      modifies this, directory
      ensures exclusive == (old(exclusive) || lockFree)
      ensures Valid() && (trie == old(trie) || fresh(trie))
      ensures !exclusive ==>
                && ok && old(directory.Contents()) == directory.Contents()
                && old(State()) == State() && trie == old(trie)
      ensures exclusive ==>
                var effect := old(Store.Compact(directory.Contents(), State()));
                && Shows(effect) && ok == effect.ok
                && (ok ==> IsIndexOf(trie.contents, records))
      ensures exclusive && old(Sync(directory.Contents(), State())).ok ==>
                KeepsUntombstoned(old(Sync(directory.Contents(), State())).handle.records, records)
    {
      hide Sync, Represents, Separate, Footprint, Shape, Arena, NormalizeKey, SnapshotPayloadOf, DiskAt;
      if !exclusive {
        if lockFree {
          exclusive := true;
        } else {
          return true;
        }
      }
      ok := SyncWalIfNeeded();
      if !ok {
        return;
      }
      SyncedGeneration(old(directory.Contents()), old(State()));
      DroppingTombstones(records);
      var payload := SnapshotPayloadOf(records);
      records := WithoutTombstones(records);
      if payload.None? {
        return false;
      }
      InstallSnapshot(SnapshotFile(payload.value));
      RebuildTrie();
    }

    /** The disk steps of a compaction, one after the other. */
    method InstallSnapshot(file: seq<byte>)
      requires snapshotGeneration == directory.generation
      modifies this`snapshotGeneration, this`walPosition, directory
      ensures directory.Contents() == DiskAt(old(directory.Contents()), file, Truncated)
      ensures snapshotGeneration == old(snapshotGeneration) + 1 && walPosition == 0
    {
      ghost var synced := directory.Contents();
      directory.staged := Some(file);
      assert directory.Contents() == DiskAt(synced, file, Staged);
      if directory.snapshot.Some? {
        if directory.previous.Some? {
          directory.previous := None;
        }
        assert directory.Contents() == DiskAt(synced, file, PreviousRemoved);
        directory.previous := directory.snapshot;
        directory.snapshot := None;
      }
      assert directory.Contents() == DiskAt(synced, file, PrimaryRenamed);
      directory.snapshot := directory.staged;
      directory.staged := None;
      assert directory.Contents() == DiskAt(synced, file, Installed);
      var nextGeneration := snapshotGeneration + 1;
      directory.generation := nextGeneration;
      assert directory.Contents() == DiskAt(synced, file, Numbered);
      snapshotGeneration := nextGeneration;
      directory.wal := [];
      walPosition := 0;
    }
  }
}
