/**
  Atomic replacement and whole runs of short-term memory
  (crates/tst-core/src/stm.rs): what a replacement keeps, when it fits, and what
  no sequence of operations can break.
 */
module StmRuns {
  import opened Wrappers
  import opened Memory
  import opened StmModel
  import opened StmQuery

  // ---------- staged insertion ----------

  /** Insertion that never evicts: a key that is there already stays as it is. */
  function InsertExact(m: Stm, raw: MemoryRecord): Result<Stm> {
    var entry := Normalized(raw);
    if entry.normalizedKey in m.index then Ok(m)
    else
      match FirstFree(m.slots, 0)
      case None => Err
      case Some(target) =>
        Ok(Stm(m.slots[target := Slot(m.nextGeneration, Some(entry))],
               m.index[entry.normalizedKey := SlotRef(target, m.nextGeneration)],
               m.nextGeneration + 1))
  }

  function InsertAll(m: Stm, entries: seq<MemoryRecord>): Result<Stm>
    decreases |entries|
  {
    if entries == [] then Ok(m)
    else
      match InsertExact(m, entries[0])
      case Err => Err
      case Ok(next) => InsertAll(next, entries[1..])
  }

  function Pinned(slots: seq<Slot>): seq<MemoryRecord> {
    if slots == [] then []
    else
      var entry := slots[0].entry;
      (if entry.Some? && entry.value.pinned then [entry.value] else []) + Pinned(slots[1..])
  }

  function ReplaceUnpinned(m: Stm, entries: seq<MemoryRecord>): Result<Stm> {
    InsertAll(Empty(|m.slots|), Pinned(m.slots) + entries)
  }

  // ---------- first occurrence wins ----------

  function KeyOf(entry: MemoryRecord): string {
    NormalizeKey(entry.key)
  }

  function KeysOf(entries: seq<MemoryRecord>): set<string> {
    set e | e in entries :: KeyOf(e)
  }

  /** The contents plus the entries whose keys are new, the first of each key. */
  function FirstWins(contents: map<string, MemoryRecord>, entries: seq<MemoryRecord>): map<string, MemoryRecord>
    decreases |entries|
  {
    if entries == [] then contents
    else FirstWins(NextWins(contents, entries[0]), entries[1..])
  }

  /** Entry `i` is the first with its key. */
  ghost predicate IsFirst(entries: seq<MemoryRecord>, i: int) {
    0 <= i < |entries| && forall j :: 0 <= j < i ==> KeyOf(entries[j]) != KeyOf(entries[i])
  }

  function NextWins(contents: map<string, MemoryRecord>, entry: MemoryRecord): map<string, MemoryRecord> {
    if KeyOf(entry) in contents then contents else contents[KeyOf(entry) := Normalized(entry)]
  }

  lemma {:induction false} FirstWinsKeys(contents: map<string, MemoryRecord>, entries: seq<MemoryRecord>)
    ensures FirstWins(contents, entries).Keys == contents.Keys + KeysOf(entries)
    ensures forall k :: k in contents ==> FirstWins(contents, entries)[k] == contents[k]
    decreases |entries|
  {
    hide NormalizeKey;
    if entries != [] {
      FirstWinsKeys(NextWins(contents, entries[0]), entries[1..]);
      assert entries == [entries[0]] + entries[1..];
      assert KeysOf(entries) == {KeyOf(entries[0])} + KeysOf(entries[1..]);
    }
  }

  lemma {:induction false} FirstWinsValue(contents: map<string, MemoryRecord>, entries: seq<MemoryRecord>, i: nat)
    requires IsFirst(entries, i) && KeyOf(entries[i]) !in contents
    ensures KeyOf(entries[i]) in FirstWins(contents, entries)
    ensures FirstWins(contents, entries)[KeyOf(entries[i])] == Normalized(entries[i])
    decreases |entries|
  {
    hide NormalizeKey;
    var next := NextWins(contents, entries[0]);
    FirstWinsKeys(next, entries[1..]);
    if i > 0 {
      assert KeyOf(entries[0]) != KeyOf(entries[i]);
      forall j | 0 <= j < i - 1 ensures KeyOf(entries[1..][j]) != KeyOf(entries[i]) {
        assert KeyOf(entries[j + 1]) != KeyOf(entries[i]);
      }
      FirstWinsValue(next, entries[1..], i - 1);
    }
  }

  lemma InsertExactRefinesMap(m: Stm, raw: MemoryRecord)
    requires Rep(m)
    ensures var contents := Contents(m);
            match InsertExact(m, raw)
            case Err => KeyOf(raw) !in contents && |contents| == |m.slots|
            case Ok(next) =>
              && Rep(next) && |next.slots| == |m.slots|
              && Contents(next) == NextWins(contents, raw)
              && |Contents(next)| <= |m.slots|
  {
    hide NormalizeKey;
    ContentsFitSlots(m);
    var entry := Normalized(raw);
    if entry.normalizedKey !in m.index {
      var target := FirstFree(m.slots, 0);
      if target.Some? {
        assert InsertExact(m, raw) == Ok(Placed(m, target.value, entry));
        PlacedKeepsRep(m, target.value, entry);
        PlacedContents(m, target.value, entry);
        ContentsFitSlots(Placed(m, target.value, entry));
      }
    }
  }

  lemma FirstWinsGrows(contents: map<string, MemoryRecord>, entries: seq<MemoryRecord>)
    ensures |contents| <= |FirstWins(contents, entries)|
    ensures forall k :: k in KeysOf(entries) && k !in contents ==> |contents| < |FirstWins(contents, entries)|
  {
    hide NormalizeKey;
    FirstWinsKeys(contents, entries);
    var wanted := FirstWins(contents, entries);
    SubsetSize(contents.Keys, wanted.Keys);
    forall k | k in KeysOf(entries) && k !in contents ensures |contents| < |wanted| {
      SubsetSize(contents.Keys + {k}, wanted.Keys);
    }
  }

  lemma {:induction false} SubsetSize(a: set<string>, b: set<string>)
    requires a <= b
    ensures |a| <= |b|
  {
    assert b == a + (b - a);
  }

  /** Staging succeeds exactly when the wanted keys fit, and then holds exactly the wanted records. */
  lemma {:induction false} InsertAllRefinesMap(m: Stm, entries: seq<MemoryRecord>)
    requires Rep(m)
    ensures var wanted := FirstWins(Contents(m), entries);
            && (InsertAll(m, entries).Ok? <==> |wanted| <= |m.slots|)
            && (InsertAll(m, entries).Ok? ==>
                  var staged := InsertAll(m, entries).value;
                  Rep(staged) && |staged.slots| == |m.slots| && Contents(staged) == wanted)
    decreases |entries|
  {
    hide NormalizeKey, Contents, Rep;
    if entries == [] {
      ContentsFitSlots(m);
    } else {
      InsertExactRefinesMap(m, entries[0]);
      if InsertExact(m, entries[0]).Ok? {
        InsertAllRefinesMap(InsertExact(m, entries[0]).value, entries[1..]);
      } else {
        assert KeyOf(entries[0]) in KeysOf(entries);
        FirstWinsGrows(Contents(m), entries);
      }
    }
  }

  // ---------- replacement ----------

  lemma {:induction false} PinnedMembers(slots: seq<Slot>, r: MemoryRecord)
    ensures r in Pinned(slots) <==> r.pinned && exists i :: 0 <= i < |slots| && slots[i].entry == Some(r)
  {
    if slots != [] {
      PinnedMembers(slots[1..], r);
      if i :| 0 <= i < |slots| && slots[i].entry == Some(r) {
        assert i > 0 ==> slots[1..][i - 1].entry == Some(r);
      }
      if j :| 0 <= j < |slots[1..]| && slots[1..][j].entry == Some(r) {
        assert slots[j + 1].entry == Some(r);
      }
    }
  }

  ghost function PinnedKeys(contents: map<string, MemoryRecord>): set<string> {
    set k | k in contents && contents[k].pinned
  }

  /** The pinned records of a valid memory, in slot order, have pairwise distinct keys: those of its pins. */
  lemma PinnedAreContents(m: Stm)
    requires Rep(m)
    ensures KeysOf(Pinned(m.slots)) == PinnedKeys(Contents(m))
    ensures forall r :: r in Pinned(m.slots) ==> KeyOf(r) in m.index && Contents(m)[KeyOf(r)] == r && Normalized(r) == r
  {
    hide NormalizeKey;
    forall r | r in Pinned(m.slots)
      ensures KeyOf(r) in m.index && Contents(m)[KeyOf(r)] == r && Normalized(r) == r && r.pinned
    {
      PinnedMembers(m.slots, r);
      var i :| 0 <= i < |m.slots| && m.slots[i].entry == Some(r);
      assert Occupied(m.slots, i);
    }
    forall k | k in PinnedKeys(Contents(m)) ensures k in KeysOf(Pinned(m.slots)) {
      assert RefersTo(m.slots, m.index[k], k);
      PinnedMembers(m.slots, Contents(m)[k]);
      assert KeyOf(Contents(m)[k]) == k;
    }
  }

  /** What staging the pins and then the new entries asks for. */
  lemma WantedAfterReplacement(m: Stm, entries: seq<MemoryRecord>)
    requires Rep(m)
    ensures var wanted := FirstWins(map[], Pinned(m.slots) + entries);
            && wanted.Keys == PinnedKeys(Contents(m)) + KeysOf(entries)
            && (forall k :: k in PinnedKeys(Contents(m)) ==> wanted[k] == Contents(m)[k])
            && (forall i: nat :: IsFirst(entries, i) && KeyOf(entries[i]) !in PinnedKeys(Contents(m)) ==>
                  wanted[KeyOf(entries[i])] == Normalized(entries[i]))
  {
    hide NormalizeKey, Rep, Contents;
    var pins, all := Pinned(m.slots), Pinned(m.slots) + entries;
    FirstWinsKeys(map[], all);
    PinnedAreContents(m);
    assert KeysOf(all) == KeysOf(pins) + KeysOf(entries);
    forall k | k in PinnedKeys(Contents(m)) ensures FirstWins(map[], all)[k] == Contents(m)[k] {
      var i := FirstWithKey(pins, k);
      FirstOfConcat(pins, entries, i);
      FirstWinsValue(map[], all, i);
      assert pins[i] in pins;
    }
    forall i: nat | IsFirst(entries, i) && KeyOf(entries[i]) !in PinnedKeys(Contents(m))
      ensures FirstWins(map[], all)[KeyOf(entries[i])] == Normalized(entries[i])
    {
      FirstOfConcat(pins, entries, |pins| + i);
      FirstWinsValue(map[], all, |pins| + i);
    }
  }

  lemma FirstOfConcat(a: seq<MemoryRecord>, b: seq<MemoryRecord>, i: nat)
    ensures i < |a| ==> (IsFirst(a + b, i) <==> IsFirst(a, i))
    ensures |a| <= i < |a + b| && IsFirst(b, i - |a|) && KeyOf(b[i - |a|]) !in KeysOf(a) ==> IsFirst(a + b, i)
  {
    hide NormalizeKey;
    if i < |a| {
      assert forall j :: 0 <= j <= i ==> (a + b)[j] == a[j];
    } else if i < |a + b| && IsFirst(b, i - |a|) && KeyOf(b[i - |a|]) !in KeysOf(a) {
      forall j | 0 <= j < i ensures KeyOf((a + b)[j]) != KeyOf(b[i - |a|]) {
        assert j < |a| ==> a[j] in a;
      }
    }
  }

  /**
    Replacing the unpinned records succeeds exactly when the pinned and the new
    keys together fit the capacity. Then every pin survives unchanged, each other
    key holds the first new entry with it, and nothing else remains.
   */
  lemma ReplacementKeepsPins(m: Stm, entries: seq<MemoryRecord>)
    requires Rep(m)
    ensures ReplaceUnpinned(m, entries).Ok? <==> |PinnedKeys(Contents(m)) + KeysOf(entries)| <= |m.slots|
    ensures ReplaceUnpinned(m, entries).Ok? ==>
              var after := ReplaceUnpinned(m, entries).value;
              && Rep(after) && |after.slots| == |m.slots|
              && Contents(after).Keys == PinnedKeys(Contents(m)) + KeysOf(entries)
              && (forall k :: k in PinnedKeys(Contents(m)) ==> Contents(after)[k] == Contents(m)[k])
              && (forall i: nat :: IsFirst(entries, i) && KeyOf(entries[i]) !in PinnedKeys(Contents(m)) ==>
                    Contents(after)[KeyOf(entries[i])] == Normalized(entries[i]))
  {
    hide NormalizeKey, Rep, Contents, FirstWins, InsertAll;
    var all := Pinned(m.slots) + entries;
    InsertAllRefinesMap(Empty(|m.slots|), all);
    WantedAfterReplacement(m, entries);
    assert |FirstWins(map[], all)| == |FirstWins(map[], all).Keys|;
  }

  lemma {:induction false} FirstWithKey(entries: seq<MemoryRecord>, k: string) returns (i: nat)
    requires k in KeysOf(entries)
    ensures i < |entries| && KeyOf(entries[i]) == k && IsFirst(entries, i)
  {
    i := 0;
    while KeyOf(entries[i]) != k
      invariant i < |entries| && k in KeysOf(entries[i..])
      invariant forall j :: 0 <= j < i ==> KeyOf(entries[j]) != k
      decreases |entries| - i
    {
      assert entries[i..] == [entries[i]] + entries[i + 1..];
      i := i + 1;
    }
  }

  // ---------- runs ----------

  datatype Op =
    | UpsertOp(entry: MemoryRecord)
    | DecayOp(beta: real)
    | QueryOp(query: string)
    | RemoveOp(key: string)
    | ReplaceOp(entries: seq<MemoryRecord>)
    | RebuildOp

  function Step(m: Stm, op: Op): Stm {
    match op
    case UpsertOp(entry) => Upsert(m, entry).memory
    case DecayOp(beta) => Decay(m, beta)
    case QueryOp(query) => m.(slots := BumpAll(Terms(query), m.slots))
    case RemoveOp(key) => Remove(m, key).memory
    case ReplaceOp(entries) => if ReplaceUnpinned(m, entries).Ok? then ReplaceUnpinned(m, entries).value else m
    case RebuildOp => m.(index := IndexOf(m.slots, |m.slots|))
  }

  function Run(m: Stm, ops: seq<Op>): Stm
    decreases |ops|
  {
    if ops == [] then m else Run(Step(m, ops[0]), ops[1..])
  }

  /** The pin is there under this key, with this id. */
  ghost predicate HasPin(m: Stm, key: string, id: string)
    requires Rep(m)
  {
    key in Contents(m) && Contents(m)[key].pinned && Contents(m)[key].id == id
  }

  lemma BumpKeepsRep(m: Stm, terms: seq<string>)
    requires Rep(m)
    ensures Rep(m.(slots := BumpAll(terms, m.slots)))
    ensures forall k, id :: HasPin(m, k, id) ==> HasPin(m.(slots := BumpAll(terms, m.slots)), k, id)
  {
    hide NormalizeKey, Matches;
    SameKeysKeepRep(m, BumpAll(terms, m.slots));
    forall k | k in m.index ensures Occupied(m.slots, m.index[k].index) {
      assert RefersTo(m.slots, m.index[k], k);
    }
  }

  lemma DecayKeepsRep(m: Stm, beta: real)
    requires Rep(m)
    ensures Rep(Decay(m, beta))
    ensures forall k, id :: HasPin(m, k, id) ==> HasPin(Decay(m, beta), k, id)
  {
    hide NormalizeKey, Scaled;
    SameKeysKeepRep(m, DecayAll(m.slots, beta));
    forall k | k in m.index ensures Occupied(m.slots, m.index[k].index) {
      assert RefersTo(m.slots, m.index[k], k);
    }
  }

  lemma UpsertKeepsPin(m: Stm, entry: MemoryRecord, key: string, id: string)
    requires Rep(m) && HasPin(m, key, id)
    ensures Rep(Upsert(m, entry).memory) && HasPin(Upsert(m, entry).memory, key, id)
  {
    hide NormalizeKey, Rep, Upsert;
    UpsertRefinesMap(m, entry);
  }

  /** One step keeps the representation and the capacity, and every pin it is not told to remove. */
  lemma StepKeepsPins(m: Stm, op: Op)
    requires Rep(m)
    ensures Rep(Step(m, op)) && |Step(m, op).slots| == |m.slots|
    ensures forall k, id :: HasPin(m, k, id) && !(op.RemoveOp? && NormalizeKey(op.key) == k) ==>
        HasPin(Step(m, op), k, id)
  {
    hide NormalizeKey, Rep, Upsert, Remove, Contents, IndexOf;
    match op {
      case UpsertOp(entry) =>
        UpsertRefinesMap(m, entry);
        forall k, id | HasPin(m, k, id) ensures HasPin(Step(m, op), k, id) {
          UpsertKeepsPin(m, entry, k, id);
        }
      case DecayOp(beta) => DecayKeepsRep(m, beta);
      case QueryOp(query) => BumpKeepsRep(m, Terms(query));
      case RemoveOp(key) => RemoveRefinesMap(m, key);
      case ReplaceOp(entries) => ReplacementKeepsPins(m, entries);
      case RebuildOp => RebuildRestoresIndex(m);
    }
  }

  /** Every run keeps index and slots in bijection and the capacity fixed. */
  lemma {:induction false} RunKeepsRep(m: Stm, ops: seq<Op>)
    requires Rep(m)
    ensures Rep(Run(m, ops)) && |Run(m, ops).slots| == |m.slots|
    ensures |Contents(Run(m, ops))| <= |m.slots|
    decreases |ops|
  {
    hide Rep, Step, Contents;
    if ops == [] {
      ContentsFitSlots(m);
    } else {
      StepKeepsPins(m, ops[0]);
      RunKeepsRep(Step(m, ops[0]), ops[1..]);
    }
  }

  /** No run evicts a pin: it stays, pinned and under its id, until a step removes its key. */
  lemma {:induction false} PinsSurviveRuns(m: Stm, ops: seq<Op>, key: string, id: string)
    requires Rep(m) && HasPin(m, key, id)
    requires forall i :: 0 <= i < |ops| && ops[i].RemoveOp? ==> NormalizeKey(ops[i].key) != key
    ensures Rep(Run(m, ops)) && HasPin(Run(m, ops), key, id)
    decreases |ops|
  {
    hide Rep, Step, HasPin, NormalizeKey;
    if ops != [] {
      StepKeepsPins(m, ops[0]);
      PinsSurviveRuns(Step(m, ops[0]), ops[1..], key, id);
    }
  }

  // ---------- scores stay in the unit interval ----------

  ghost predicate EntryInUnit(entry: MemoryRecord) {
    0.0 <= entry.score <= 1.0
  }

  ghost predicate OpInUnit(op: Op) {
    match op
    case UpsertOp(entry) => EntryInUnit(entry)
    case ReplaceOp(entries) => forall e :: e in entries ==> EntryInUnit(e)
    case _ => true
  }

  lemma {:induction false} InsertAllKeepsScores(m: Stm, entries: seq<MemoryRecord>)
    requires ScoresInUnit(m.slots) && forall e :: e in entries ==> EntryInUnit(e)
    ensures InsertAll(m, entries).Ok? ==> ScoresInUnit(InsertAll(m, entries).value.slots)
    decreases |entries|
  {
    hide NormalizeKey;
    if entries != [] {
      assert EntryInUnit(entries[0]);
      if InsertExact(m, entries[0]).Ok? {
        InsertAllKeepsScores(InsertExact(m, entries[0]).value, entries[1..]);
      }
    }
  }

  lemma StepKeepsScores(m: Stm, op: Op)
    requires ScoresInUnit(m.slots) && OpInUnit(op)
    ensures ScoresInUnit(Step(m, op).slots)
  {
    hide NormalizeKey, IndexOf;
    match op {
      case ReplaceOp(entries) =>
        forall e | e in Pinned(m.slots) ensures EntryInUnit(e) {
          PinnedMembers(m.slots, e);
        }
        InsertAllKeepsScores(Empty(|m.slots|), Pinned(m.slots) + entries);
      case _ =>
    }
  }

  /** Records that come in with scores in the unit interval keep them there, whatever the decay factors. */
  lemma {:induction false} RunKeepsScores(m: Stm, ops: seq<Op>)
    requires ScoresInUnit(m.slots) && forall i :: 0 <= i < |ops| ==> OpInUnit(ops[i])
    ensures ScoresInUnit(Run(m, ops).slots)
    decreases |ops|
  {
    hide Step, ScoresInUnit;
    if ops != [] {
      StepKeepsScores(m, ops[0]);
      RunKeepsScores(Step(m, ops[0]), ops[1..]);
    }
  }
}
