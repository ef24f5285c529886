/**
  The key index of a store handle (the contents of its trie) against its records
  (crates/tst-core/src/persistence.rs): what `rebuild_trie` makes, what `exact`
  answers, and when that answer agrees with a linear scan of the records.
 */
module Lookup {
  import opened Wrappers
  import opened Memory
  import opened History

  type Index = map<string, string>

  predicate Usable(record: MemoryRecord) {
    record.verified && !record.stale && !record.tombstone
  }

  /** The key the trie files a record under: it normalises the stored normal form again. */
  function FiledUnder(record: MemoryRecord): string {
    NormalizeKey(record.normalizedKey)
  }

  /** A usable record of these is filed under the key and has the id. */
  ghost predicate Files(records: Records, key: string, id: string) {
    exists at :: at in records && Usable(records[at]) && FiledUnder(records[at]) == key && records[at].id == id
  }

  /** An outcome of `rebuild_trie`: the map is walked in any order, so any usable record may win a shared key. */
  ghost predicate IsIndexOf(index: Index, records: Records) {
    && (forall k :: k in index ==> k != "" && Files(records, k, index[k]))
    && (forall id :: id in records && Usable(records[id]) && FiledUnder(records[id]) != "" ==>
          FiledUnder(records[id]) in index)
  }

  function Inserted(index: Index, record: MemoryRecord): Index {
    if record.tombstone || FiledUnder(record) == "" then index else index[FiledUnder(record) := record.id]
  }

  /** A partial index: the usable records among `done` have been filed. */
  ghost predicate Filed(index: Index, records: Records, done: set<string>) {
    && (forall k :: k in index ==> k != "" && Files(records, k, index[k]))
    && (forall id :: id in records && id in done && Usable(records[id]) && FiledUnder(records[id]) != "" ==>
          FiledUnder(records[id]) in index)
  }

  lemma FileOne(index: Index, records: Records, done: set<string>, id: string)
    requires Filed(index, records, done) && id in records && Usable(records[id])
    ensures Filed(Inserted(index, records[id]), records, done + {id})
  {
    var after := Inserted(index, records[id]);
    forall k | k in after ensures k != "" && Files(records, k, after[k]) {
      if k == FiledUnder(records[id]) {
        assert Files(records, k, records[id].id);
      }
    }
  }

  /** Some walk over the records always makes an index. */
  lemma IndexExists(records: Records) returns (index: Index)
    ensures IsIndexOf(index, records)
  {
    hide FiledUnder;
    index := map[];
    var todo := records.Keys;
    while todo != {}
      invariant todo <= records.Keys && Filed(index, records, records.Keys - todo)
      decreases |todo|
    {
      var id :| id in todo;
      if Usable(records[id]) {
        FileOne(index, records, records.Keys - todo, id);
        index := Inserted(index, records[id]);
      }
      assert records.Keys - (todo - {id}) == (records.Keys - todo) + {id};
      todo := todo - {id};
    }
  }

  /** The id `exact` answers with. */
  function ExactId(records: Records, index: Index, key: string): Option<string> {
    var k := NormalizeKey(key);
    if k in index && index[k] in records && Usable(records[index[k]]) then Some(index[k]) else None
  }

  function Touched(records: Records, id: string): Records
    requires id in records
  {
    records[id := Accessed(records[id])]
  }

  /** Touching counts one access of one record. */
  lemma TouchedReads(records: Records, id: string)
    requires id in records
    ensures Touched(records, id).Keys == records.Keys
    ensures Touched(records, id)[id] == records[id].(accessCount := records[id].accessCount + 1)
    ensures forall other :: other in records && other != id ==> Touched(records, id)[other] == records[other]
  {
  }

  /** A linear scan: the id of a verified record, neither stale nor removed, with this key. */
  ghost predicate FoundByScan(records: Records, id: string, key: string) {
    && id in records && records[id].normalizedKey == NormalizeKey(key)
    && records[id].verified && !records[id].stale && !records[id].tombstone
  }

  // ---------- one key per id ----------

  /** No two ids share a non-empty key. */
  ghost predicate OneToOne(keyOf: string -> string) {
    forall a, b :: keyOf(a) == keyOf(b) && keyOf(a) != "" ==> a == b
  }

  ghost predicate RecordNamed(record: MemoryRecord, id: string, keyOf: string -> string) {
    record.id == id && record.normalizedKey == NormalizeKey(record.key) == keyOf(id)
  }

  ghost predicate NamesAgree(records: Records, keyOf: string -> string) {
    forall id :: id in records ==> RecordNamed(records[id], id, keyOf)
  }

  ghost predicate EventNamed(event: WalEvent, keyOf: string -> string) {
    event.Upsert? ==> RecordNamed(event.record, event.record.id, keyOf)
  }

  ghost predicate EventsNamed(events: seq<WalEvent>, keyOf: string -> string) {
    forall i :: 0 <= i < |events| ==> EventNamed(events[i], keyOf)
  }

  /** Every usable record can be found under its key, and no entry points to an id with another key. */
  ghost predicate IndexSound(records: Records, index: Index, keyOf: string -> string) {
    && (forall id :: id in records && Usable(records[id]) && keyOf(id) != "" ==>
        keyOf(id) in index && index[keyOf(id)] == id)
    && (forall k :: k in index ==> k != "" && keyOf(index[k]) == k)
  }

  lemma NamedIsFiled(record: MemoryRecord, id: string, keyOf: string -> string)
    requires RecordNamed(record, id, keyOf)
    ensures FiledUnder(record) == keyOf(id)
  {
    NormalizeIdempotent(record.key);
  }

  lemma {:induction false} FoldKeepsNames(records: Records, events: seq<WalEvent>, keyOf: string -> string)
    requires NamesAgree(records, keyOf) && EventsNamed(events, keyOf)
    ensures NamesAgree(Fold(records, events), keyOf)
    decreases |events|
  {
    if events != [] {
      assert EventNamed(events[0], keyOf);
      forall id | id in Apply(records, events[0]) ensures RecordNamed(Apply(records, events[0])[id], id, keyOf) {
        assert id in records ==> RecordNamed(records[id], id, keyOf);
      }
      FoldKeepsNames(Apply(records, events[0]), events[1..], keyOf);
    }
  }

  lemma RebuiltIsSound(records: Records, index: Index, keyOf: string -> string)
    requires OneToOne(keyOf) && NamesAgree(records, keyOf) && IsIndexOf(index, records)
    ensures IndexSound(records, index, keyOf)
  {
    forall id | id in records ensures FiledUnder(records[id]) == keyOf(id) {
      NamedIsFiled(records[id], id, keyOf);
    }
  }

  lemma UpsertKeepsSound(records: Records, index: Index, record: MemoryRecord, keyOf: string -> string)
    requires OneToOne(keyOf) && NamesAgree(records, keyOf) && IndexSound(records, index, keyOf)
    requires RecordNamed(record, record.id, keyOf)
    ensures IndexSound(Apply(records, Upsert(record)), Inserted(index, record), keyOf)
  {
    hide NormalizeKey, FiledUnder;
    NamedIsFiled(record, record.id, keyOf);
  }

  lemma StalePathKeepsSound(records: Records, index: Index, path: string, currentHash: string, keyOf: string -> string)
    requires NamesAgree(records, keyOf) && IndexSound(records, index, keyOf)
    ensures IndexSound(Apply(records, StalePath(path, currentHash)), index, keyOf)
  {
    var after := Apply(records, StalePath(path, currentHash));
    forall id | id in after && Usable(after[id]) && keyOf(id) != ""
      ensures keyOf(id) in index && index[keyOf(id)] == id
    {
      assert Usable(records[id]);
    }
  }

  // ---------- exact against a linear scan ----------

  /** Where ids and keys correspond, `exact` finds a record precisely when a scan does, and the same one. */
  lemma ExactIsScan(records: Records, index: Index, key: string, keyOf: string -> string)
    requires OneToOne(keyOf) && NamesAgree(records, keyOf) && IndexSound(records, index, keyOf)
    requires NormalizeKey(key) != ""
    ensures forall id :: ExactId(records, index, key) == Some(id) <==> FoundByScan(records, id, key)
  {
    var k := NormalizeKey(key);
    forall id ensures ExactId(records, index, key) == Some(id) <==> FoundByScan(records, id, key) {
      assert id in records ==> RecordNamed(records[id], id, keyOf);
      if ExactId(records, index, key) == Some(id) {
        assert keyOf(index[k]) == k;
      }
    }
  }

  /** `exact` answers with a record that a scan finds, and finds one whenever the scan does. */
  ghost predicate AnswersScan(records: Records, index: Index, key: string) {
    match ExactId(records, index, key)
    case None => forall id :: !FoundByScan(records, id, key)
    case Some(id) => FoundByScan(records, id, key)
  }

  /** The record carries its own id and the normal form of its own key. */
  predicate RecordNormal(record: MemoryRecord, id: string) {
    record.id == id && record.normalizedKey == NormalizeKey(record.key)
  }

  ghost predicate KeysNormal(records: Records) {
    forall id :: id in records ==> RecordNormal(records[id], id)
  }

  lemma NormalIsFiled(record: MemoryRecord)
    requires record.normalizedKey == NormalizeKey(record.key)
    ensures FiledUnder(record) == record.normalizedKey
  {
    NormalizeIdempotent(record.key);
  }

  /** Right after a rebuild `exact` answers as a scan does, shared keys or not. */
  lemma RebuiltExactIsScan(records: Records, index: Index, key: string)
    requires KeysNormal(records) && IsIndexOf(index, records) && NormalizeKey(key) != ""
    ensures AnswersScan(records, index, key)
  {
    hide NormalizeKey;
    forall id | id in records ensures FiledUnder(records[id]) == records[id].normalizedKey {
      NormalIsFiled(records[id]);
    }
    forall id | FoundByScan(records, id, key) ensures ExactId(records, index, key).Some? {
      assert FiledUnder(records[id]) in index;
    }
  }

  /** The empty key is never found, so `exact` answers it as a scan does exactly if no usable record carries it. */
  lemma EmptyKeyIsNotIndexed(records: Records, index: Index, key: string)
    requires NormalizeKey(key) == "" && "" !in index
    ensures ExactId(records, index, key) == None
    ensures AnswersScan(records, index, key) <==> forall id :: !FoundByScan(records, id, key)
  {
  }

  // ---------- which updates of a shared key keep the answer ----------

  /** Another usable record has this key. */
  ghost predicate SharesKey(records: Records, id: string, key: string) {
    exists other :: other != id && FoundByScan(records, other, key)
  }

  /**
    What an upsert may do to the answer for a key. If it is the record's own key,
    the record must be usable, or alone with the key among usable records, or a
    tombstone where the index names another record. If it is another key, the
    index must not name the record there, unless neither it nor any other record
    could be found there.
   */
  ghost predicate UpsertKeepsAnswer(records: Records, index: Index, record: MemoryRecord, key: string) {
    var k := NormalizeKey(key);
    var named := k in index && index[k] == record.id;
    if record.normalizedKey == k then
      Usable(record) || !SharesKey(records, record.id, key) || (record.tombstone && k in index && !named)
    else
      !named || (!Usable(record) && !SharesKey(records, record.id, key))
  }

  /** A path event must not hit the record that `exact` answers with, unless it hits all that have the key. */
  ghost predicate PathKeepsAnswer(records: Records, index: Index, path: string, currentHash: string, key: string) {
    match ExactId(records, index, key)
    case None => true
    case Some(named) =>
      || !BuiltOnOther(records[named].fileHashes, path, currentHash)
      || forall id :: FoundByScan(records, id, key) ==> BuiltOnOther(records[id].fileHashes, path, currentHash)
  }

  /** An upsert, whatever index it meets, keeps the answer for a key exactly under that condition. */
  lemma UpsertAgreesIff(records: Records, index: Index, record: MemoryRecord, key: string)
    requires RecordNormal(record, record.id) && NormalizeKey(key) != ""
    requires AnswersScan(records, index, key)
    ensures AnswersScan(Apply(records, Upsert(record)), Inserted(index, record), key)
       <==> UpsertKeepsAnswer(records, index, record, key)
  {
    NormalIsFiled(record);
    hide NormalizeKey, FiledUnder;
    var after := Apply(records, Upsert(record));
    forall id | id != record.id ensures FoundByScan(after, id, key) == FoundByScan(records, id, key) {
    }
    assert SharesKey(records, record.id, key) <==> SharesKey(after, record.id, key);
  }

  /** A path event, after which the trie is not rebuilt, keeps the answer for a key exactly under the other. */
  lemma StalePathAgreesIff(records: Records, index: Index, path: string, currentHash: string, key: string)
    requires AnswersScan(records, index, key)
    ensures AnswersScan(Apply(records, StalePath(path, currentHash)), index, key)
       <==> PathKeepsAnswer(records, index, path, currentHash, key)
  {
    hide NormalizeKey;
    var after := Apply(records, StalePath(path, currentHash));
    forall id
      ensures FoundByScan(after, id, key)
         <==> FoundByScan(records, id, key) && !Conflicts(records[id], path, currentHash)
    {
    }
  }

  lemma FoldTwo(records: Records, first: WalEvent, second: WalEvent)
    ensures Fold(records, [first, second]) == Apply(Apply(records, first), second)
  {
    assert [first, second][1..] == [second] && [second][1..] == [];
    assert Fold(Apply(records, first), [second]) == Fold(Apply(Apply(records, first), second), []);
  }

  /**
    Of two records that share a key, the one upserted last takes the key in the
    index even when it is not usable, and the usable one is no longer found.
   */
  lemma SharedKeyHidesRecord(first: MemoryRecord, second: MemoryRecord, key: string)
    requires first.id != second.id && Usable(first) && !second.verified && !second.tombstone
    requires first.normalizedKey == second.normalizedKey == NormalizeKey(key) != ""
    ensures var records := Fold(map[], [Upsert(first), Upsert(second)]);
            var index := Inserted(Inserted(map[], first), second);
            ExactId(records, index, key) == None && FoundByScan(records, first.id, key)
  {
    NormalizeIdempotent(key);
    FoldTwo(map[], Upsert(first), Upsert(second));
  }

  /** If a path event makes the later of two usable records stale, the earlier one is no longer found. */
  lemma StalePathHidesRecord(first: MemoryRecord, second: MemoryRecord, path: string, currentHash: string, key: string)
    requires first.id != second.id && Usable(first) && Usable(second)
    requires first.normalizedKey == second.normalizedKey == NormalizeKey(key) != ""
    requires !BuiltOnOther(first.fileHashes, path, currentHash)
    requires BuiltOnOther(second.fileHashes, path, currentHash)
    ensures var records := Fold(map[], [Upsert(first), Upsert(second), StalePath(path, currentHash)]);
            var index := Inserted(Inserted(map[], first), second);
            ExactId(records, index, key) == None && FoundByScan(records, first.id, key)
  {
    NormalizeIdempotent(key);
    FoldTwo(Apply(map[], Upsert(first)), Upsert(second), StalePath(path, currentHash));
    var events := [Upsert(first), Upsert(second), StalePath(path, currentHash)];
    assert events[1..] == [Upsert(second), StalePath(path, currentHash)];
  }

  /** An id upserted again under another key still answers for the key it had. */
  lemma RekeyedRecordAnswersOldKey(before: MemoryRecord, after: MemoryRecord, key: string)
    requires before.id == after.id && Usable(before) && Usable(after)
    requires before.normalizedKey == NormalizeKey(key) != ""
    requires RecordNormal(after, after.id) && after.normalizedKey != before.normalizedKey
    ensures var records := Fold(map[], [Upsert(before), Upsert(after)]);
            var index := Inserted(Inserted(map[], before), after);
            ExactId(records, index, key) == Some(after.id) && forall id :: !FoundByScan(records, id, key)
  {
    NormalizeIdempotent(key);
    NormalIsFiled(after);
    FoldTwo(map[], Upsert(before), Upsert(after));
  }
}
