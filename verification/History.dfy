/**
  What a sequence of logged events means (the `apply` of
  crates/tst-core/src/persistence.rs) and why replaying is safe. Stores are
  compared on their live records: tombstoned records are dropped, and the access
  count is erased because it is bumped in memory and never logged.
 */
module History {
  import opened Wrappers
  import opened Memory

  datatype WalEvent =
    | Upsert(record: MemoryRecord)
    | Tombstone(id: string, timestampMs: nat)
    | StalePath(path: string, currentHash: string)

  type Records = map<string, MemoryRecord>

  /** The record was built on a version of the file other than the current one. */
  predicate Conflicts(record: MemoryRecord, path: string, currentHash: string) {
    path in record.fileHashes && record.fileHashes[path] != currentHash
  }

  function Apply(records: Records, event: WalEvent): Records {
    match event
    case Upsert(record) => records[record.id := record]
    case Tombstone(id, timestampMs) =>
      if id in records then records[id := records[id].(tombstone := true, updatedMs := timestampMs)] else records
    case StalePath(path, currentHash) =>
      map id | id in records ::
        if Conflicts(records[id], path, currentHash) then records[id].(stale := true) else records[id]
  }

  function Fold(records: Records, events: seq<WalEvent>): Records
    decreases |events|
  {
    if events == [] then records else Fold(Apply(records, events[0]), events[1..])
  }

  function Erase(record: MemoryRecord): MemoryRecord {
    record.(accessCount := 0)
  }

  function Live(records: Records): Records {
    map id | id in records && !records[id].tombstone :: Erase(records[id])
  }

  /** Live are the records without a tombstone, as they are but for the access count. */
  lemma LiveReads(records: Records, id: string)
    ensures id in Live(records) <==> id in records && !records[id].tombstone
    ensures id in Live(records) ==> Live(records)[id] == records[id].(accessCount := 0)
  {
  }

  /** The live records that a history stands for. */
  function Outcome(events: seq<WalEvent>): Records {
    Live(Fold(map[], events))
  }

  // ---------- one id at a time ----------

  function View(records: Records, id: string): Option<MemoryRecord> {
    if id in records && !records[id].tombstone then Some(Erase(records[id])) else None
  }

  /** The event writes or removes this id. */
  predicate Names(event: WalEvent, id: string) {
    match event
    case Upsert(record) => record.id == id
    case Tombstone(other, _) => other == id
    case StalePath(_, _) => false
  }

  function StepView(view: Option<MemoryRecord>, event: WalEvent, id: string): Option<MemoryRecord> {
    match event
    case Upsert(record) => if record.id != id then view else if record.tombstone then None else Some(Erase(record))
    case Tombstone(other, _) => if other == id then None else view
    case StalePath(path, currentHash) =>
      if view.Some? && Conflicts(view.value, path, currentHash) then Some(view.value.(stale := true)) else view
  }

  function FoldView(view: Option<MemoryRecord>, events: seq<WalEvent>, id: string): Option<MemoryRecord>
    decreases |events|
  {
    if events == [] then view else FoldView(StepView(view, events[0], id), events[1..], id)
  }

  lemma SameViews(left: Records, right: Records)
    ensures Live(left) == Live(right) <==> forall id :: View(left, id) == View(right, id)
  {
    if Live(left) == Live(right) {
      forall id ensures View(left, id) == View(right, id) {
        assert id in Live(left) <==> id in Live(right);
      }
    }
    if forall id :: View(left, id) == View(right, id) {
      forall id ensures id in Live(left) <==> id in Live(right) {
        assert View(left, id) == View(right, id);
      }
      forall id | id in Live(left) ensures Live(left)[id] == Live(right)[id] {
        assert View(left, id) == View(right, id);
      }
    }
  }

  lemma {:induction false} ViewAfterFold(records: Records, events: seq<WalEvent>, id: string)
    ensures View(Fold(records, events), id) == FoldView(View(records, id), events, id)
    decreases |events|
  {
    if events != [] {
      assert View(Apply(records, events[0]), id) == StepView(View(records, id), events[0], id);
      ViewAfterFold(Apply(records, events[0]), events[1..], id);
    }
  }

  /** The live outcome of a fold depends on the live records it starts from and nothing else. */
  lemma LiveFoldCongruent(left: Records, right: Records, events: seq<WalEvent>)
    requires Live(left) == Live(right)
    ensures Live(Fold(left, events)) == Live(Fold(right, events))
  {
    SameViews(left, right);
    forall id ensures View(Fold(left, events), id) == View(Fold(right, events), id) {
      ViewAfterFold(left, events, id);
      ViewAfterFold(right, events, id);
    }
    SameViews(Fold(left, events), Fold(right, events));
  }

  lemma {:induction false} FoldConcat(records: Records, a: seq<WalEvent>, b: seq<WalEvent>)
    ensures Fold(records, a + b) == Fold(Fold(records, a), b)
    decreases |a|
  {
    if a == [] {
      assert a + b == b;
    } else {
      assert (a + b)[1..] == a[1..] + b;
      FoldConcat(Apply(records, a[0]), a[1..], b);
    }
  }

  // ---------- closed form of a fold ----------

  ghost predicate Settles(events: seq<WalEvent>, id: string) {
    exists i :: 0 <= i < |events| && Names(events[i], id)
  }

  /** The record was built on a version of the path other than the one with this hash. */
  ghost predicate BuiltOnOther(hashes: map<string, string>, path: string, currentHash: string) {
    path in hashes && hashes[path] != currentHash
  }

  /** Some path event names a file that the record was built on, with another hash. */
  ghost predicate Outdated(record: MemoryRecord, events: seq<WalEvent>) {
    exists i :: 0 <= i < |events| && events[i].StalePath?
      && BuiltOnOther(record.fileHashes, events[i].path, events[i].currentHash)
  }

  /**
    What each event does to each record. An upsert writes its record under its
    id; a tombstone marks and dates the record it names, if there is one; a path
    event makes stale exactly the records built on that path with another hash.
    Nothing else changes, and only an upsert brings in an id.
   */
  ghost predicate EventDoes(event: WalEvent, before: Records, after: Records) {
    match event
    case Upsert(record) =>
      && after.Keys == before.Keys + {record.id} && after[record.id] == record
      && forall id :: id in before && id != record.id ==> after[id] == before[id]
    case Tombstone(named, timestampMs) =>
      && after.Keys == before.Keys
      && (forall id :: id in before && id != named ==> after[id] == before[id])
      && (named in before ==> after[named] == before[named].(tombstone := true, updatedMs := timestampMs))
    case StalePath(path, currentHash) =>
      && after.Keys == before.Keys
      && forall id :: id in before ==>
           && after[id].(stale := before[id].stale) == before[id]
           && (after[id].stale <==> before[id].stale || BuiltOnOther(before[id].fileHashes, path, currentHash))
  }

  lemma ApplyDoes(records: Records, event: WalEvent)
    ensures EventDoes(event, records, Apply(records, event))
  {
  }

  /** Once an id has been written or removed, what was there before no longer matters. */
  lemma {:induction false} SettledView(x: Option<MemoryRecord>, y: Option<MemoryRecord>, events: seq<WalEvent>,
      id: string)
    requires Settles(events, id)
    ensures FoldView(x, events, id) == FoldView(y, events, id)
    decreases |events|
  {
    if Names(events[0], id) {
      assert StepView(x, events[0], id) == StepView(y, events[0], id);
    } else {
      var i :| 0 <= i < |events| && Names(events[i], id);
      assert Names(events[1..][i - 1], id);
      SettledView(StepView(x, events[0], id), StepView(y, events[0], id), events[1..], id);
    }
  }

  /** An id that is never written or removed can only be marked stale. */
  lemma {:induction false} UnsettledView(view: Option<MemoryRecord>, events: seq<WalEvent>, id: string)
    requires !Settles(events, id)
    ensures FoldView(view, events, id)
         == if view.None? then None
            else Some(view.value.(stale := view.value.stale || Outdated(view.value, events)))
    decreases |events|
  {
    if events != [] {
      assert !Names(events[0], id);
      assert !Settles(events[1..], id);
      UnsettledView(StepView(view, events[0], id), events[1..], id);
      if view.Some? {
        OutdatedSplits(view.value, events);
        assert Outdated(view.value.(stale := true), events[1..]) == Outdated(view.value, events[1..]) by {
          assert forall e: WalEvent :: e.StalePath? ==>
              Conflicts(view.value.(stale := true), e.path, e.currentHash)
                  == Conflicts(view.value, e.path, e.currentHash);
        }
      }
    }
  }

  lemma OutdatedSplits(record: MemoryRecord, events: seq<WalEvent>)
    requires events != []
    ensures Outdated(record, events)
       <==> (|| (events[0].StalePath? && Conflicts(record, events[0].path, events[0].currentHash))
             || Outdated(record, events[1..]))
  {
    if Outdated(record, events[1..]) {
      var i :| 0 <= i < |events[1..]| && events[1..][i].StalePath?
            && Conflicts(record, events[1..][i].path, events[1..][i].currentHash);
      assert events[i + 1] == events[1..][i];
    }
    if Outdated(record, events) {
      var i :| 0 <= i < |events| && events[i].StalePath? && Conflicts(record, events[i].path, events[i].currentHash);
      assert i > 0 ==> events[1..][i - 1] == events[i];
    }
  }

  // ---------- replaying again changes nothing ----------

  lemma ReplayViewTwice(view: Option<MemoryRecord>, events: seq<WalEvent>, id: string)
    ensures FoldView(FoldView(view, events, id), events, id) == FoldView(view, events, id)
  {
    var once := FoldView(view, events, id);
    if Settles(events, id) {
      SettledView(once, view, events, id);
    } else {
      UnsettledView(view, events, id);
      UnsettledView(once, events, id);
      if view.Some? {
        assert Outdated(once.value, events) == Outdated(view.value, events) by {
          assert forall e: WalEvent :: e.StalePath? ==>
              Conflicts(once.value, e.path, e.currentHash) == Conflicts(view.value, e.path, e.currentHash);
        }
      }
    }
  }

  /** Replaying a log over records that already contain its effect leaves the live records alone. */
  lemma ReplayIsIdempotent(records: Records, events: seq<WalEvent>)
    ensures Live(Fold(Fold(records, events), events)) == Live(Fold(records, events))
  {
    var once := Fold(records, events);
    forall id ensures View(Fold(once, events), id) == View(once, id) {
      ViewAfterFold(records, events, id);
      ViewAfterFold(once, events, id);
      ReplayViewTwice(View(records, id), events, id);
    }
    SameViews(Fold(once, events), once);
  }

  /**
    A base that already holds the first `upTo` events, under a log that starts
    at an earlier event `from`, recovers the whole history.
   */
  lemma ReplayOverlapping(base: Records, history: seq<WalEvent>, from: nat, upTo: nat)
    requires from <= upTo <= |history|
    requires Live(base) == Outcome(history[..upTo])
    ensures Live(Fold(base, history[from..])) == Outcome(history)
  {
    var before, again, rest := history[..from], history[from..upTo], history[upTo..];
    var start := Fold(map[], before);
    assert history[..upTo] == before + again;
    FoldConcat(map[], before, again);
    var held := Fold(start, again);
    assert Live(base) == Live(held);
    LiveFoldCongruent(base, held, again);
    ReplayIsIdempotent(start, again);
    LiveFoldCongruent(Fold(base, again), held, rest);
    assert history[from..] == again + rest;
    FoldConcat(base, again, rest);
    assert history == before + again + rest;
    FoldConcat(map[], before + again, rest);
  }

  /** Dropping the base of a log is harmless exactly when the log writes or removes everything live in it. */
  lemma ReplayWithoutBase(base: Records, events: seq<WalEvent>)
    ensures Live(Fold(map[], events)) == Live(Fold(base, events))
       <==> forall id :: id in Live(base) ==> Settles(events, id)
  {
    var without, with := Fold(map[], events), Fold(base, events);
    forall id ensures View(without, id) == View(with, id) <==> (id in Live(base) ==> Settles(events, id)) {
      ViewAfterFold(map[], events, id);
      ViewAfterFold(base, events, id);
      if Settles(events, id) {
        SettledView(View(map[], id), View(base, id), events, id);
      } else {
        UnsettledView(View(map[], id), events, id);
        UnsettledView(View(base, id), events, id);
      }
    }
    SameViews(without, with);
    if Live(without) == Live(with) {
      forall id | id in Live(base) ensures Settles(events, id) {
        assert View(without, id) == View(with, id);
      }
    }
  }

  // ---------- the last write wins ----------

  /** Event `at` writes a live record under the id, and no later event writes or removes it. */
  ghost predicate LastWrite(events: seq<WalEvent>, id: string, at: nat) {
    && at < |events| && events[at].Upsert? && events[at].record.id == id && !events[at].record.tombstone
    && forall i :: at < i < |events| ==>
         !(events[i].Upsert? && events[i].record.id == id) && !(events[i].Tombstone? && events[i].id == id)
  }

  /** What a history means, read off without running it. */
  lemma {:induction false} OutcomeIsLastWrite(events: seq<WalEvent>, id: string)
    ensures id in Outcome(events) <==> exists at: nat :: LastWrite(events, id, at)
    ensures forall at: nat :: LastWrite(events, id, at) ==>
              var written := events[at].record;
              && id in Outcome(events)
              && Outcome(events)[id]
              == written.(accessCount := 0, stale := written.stale || Outdated(written, events[at + 1..]))
  {
    ViewAfterFold(map[], events, id);
    assert View(map[], id).None?;
    if id in Outcome(events) {
      assert Settles(events, id) by {
        if !Settles(events, id) {
          UnsettledView(None, events, id);
        }
      }
      var at := LastNamed(events, id);
      ViewAfterLastNamed(None, events, id, at);
      assert LastWrite(events, id, at);
    }
    forall at: nat | LastWrite(events, id, at)
      ensures var written := events[at].record;
              && id in Outcome(events)
              && Outcome(events)[id]
              == written.(accessCount := 0, stale := written.stale || Outdated(written, events[at + 1..]))
    {
      ViewAfterLastNamed(None, events, id, at);
    }
  }

  lemma {:induction false} LastNamed(events: seq<WalEvent>, id: string) returns (at: nat)
    requires Settles(events, id)
    ensures at < |events| && Names(events[at], id)
    ensures forall i :: at < i < |events| ==> !Names(events[i], id)
    decreases |events|
  {
    var last := |events| - 1;
    if Names(events[last], id) {
      at := last;
    } else {
      var i :| 0 <= i < |events| && Names(events[i], id);
      assert Names(events[..last][i], id);
      at := LastNamed(events[..last], id);
      assert events[..last][at] == events[at];
      forall j | at < j < |events| ensures !Names(events[j], id) {
        assert j < last ==> events[..last][j] == events[j];
      }
    }
  }

  lemma {:induction false} FoldViewConcat(view: Option<MemoryRecord>, a: seq<WalEvent>, b: seq<WalEvent>, id: string)
    ensures FoldView(view, a + b, id) == FoldView(FoldView(view, a, id), b, id)
    decreases |a|
  {
    if a == [] {
      assert a + b == b;
    } else {
      assert (a + b)[1..] == a[1..] + b;
      FoldViewConcat(StepView(view, a[0], id), a[1..], b, id);
    }
  }

  lemma ViewAfterLastNamed(view: Option<MemoryRecord>, events: seq<WalEvent>, id: string, at: nat)
    requires at < |events| && Names(events[at], id)
    requires forall i :: at < i < |events| ==> !Names(events[i], id)
    ensures FoldView(view, events, id)
         == if events[at].Upsert? && !events[at].record.tombstone
            then Some(Erase(events[at].record).(
                        stale := events[at].record.stale || Outdated(events[at].record, events[at + 1..])))
            else None
  {
    var before, later := events[..at], events[at + 1..];
    assert events == before + ([events[at]] + later);
    FoldViewConcat(view, before, [events[at]] + later, id);
    assert ([events[at]] + later)[1..] == later;
    var written := StepView(FoldView(view, before, id), events[at], id);
    assert !Settles(later, id);
    UnsettledView(written, later, id);
    if written.Some? {
      var record := events[at].record;
      assert Outdated(Erase(record), later) == Outdated(record, later) by {
        assert forall e: WalEvent :: e.StalePath? ==>
            Conflicts(Erase(record), e.path, e.currentHash) == Conflicts(record, e.path, e.currentHash);
      }
    }
  }
}
