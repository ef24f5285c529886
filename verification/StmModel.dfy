/**
  Short-term memory as values (crates/tst-core/src/stm.rs): a fixed row of slots
  and a hash index into it, what each operation does to them, and the bounded
  map of records that they stand for.
 */
module StmModel {
  import opened Wrappers
  import opened Memory

  datatype SlotRef = SlotRef(index: nat, generation: nat)

  datatype Slot = Slot(generation: nat, entry: Option<MemoryRecord>)

  datatype Stm = Stm(slots: seq<Slot>, index: map<string, SlotRef>, nextGeneration: nat)

  // ---------- the representation ----------

  ghost predicate Occupied(slots: seq<Slot>, i: int) {
    0 <= i < |slots| && slots[i].entry.Some?
  }

  /** The index entry names an occupied slot of the same generation and key. */
  ghost predicate RefersTo(slots: seq<Slot>, reference: SlotRef, key: string) {
    && Occupied(slots, reference.index)
    && slots[reference.index].generation == reference.generation
    && slots[reference.index].entry.value.normalizedKey == key
  }

  ghost predicate EntryNormal(entry: MemoryRecord) {
    entry.normalizedKey == NormalizeKey(entry.key)
  }

  /** Index and slots are in bijection, keys are normal, and the next generation is unused. */
  ghost predicate Rep(m: Stm) {
    && (forall k :: k in m.index ==> RefersTo(m.slots, m.index[k], k))
    && (forall i :: Occupied(m.slots, i) ==>
          && EntryNormal(m.slots[i].entry.value)
          && m.slots[i].entry.value.normalizedKey in m.index
          && m.index[m.slots[i].entry.value.normalizedKey].index == i)
    && (forall i :: 0 <= i < |m.slots| ==> m.slots[i].generation < m.nextGeneration)
  }

  /** The records by key. */
  ghost function Contents(m: Stm): map<string, MemoryRecord>
    requires Rep(m)
  {
    map k | k in m.index :: m.slots[m.index[k].index].entry.value
  }

  function Empty(capacity: nat): (m: Stm)
    ensures |m.slots| == capacity && forall i :: 0 <= i < capacity ==> m.slots[i] == Slot(0, None)
    ensures Rep(m) && Contents(m) == map[]
  {
    Stm(seq(capacity, _ => Slot(0, None)), map[], 1)
  }

  // ---------- rebuilding the index ----------

  /** The index read off the first `count` slots; a later slot wins a shared key. */
  function IndexOf(slots: seq<Slot>, count: nat): map<string, SlotRef>
    requires count <= |slots|
  {
    if count == 0 then map[]
    else
      var slot := slots[count - 1];
      var before := IndexOf(slots, count - 1);
      if slot.entry.None? then before
      else before[slot.entry.value.normalizedKey := SlotRef(count - 1, slot.generation)]
  }

  /** Every entry names an occupied slot with its key, and no occupied slot with that key comes later. */
  ghost predicate ReadsSlots(index: map<string, SlotRef>, slots: seq<Slot>, count: nat) {
    && (forall k :: k in index ==> index[k].index < count && RefersTo(slots, index[k], k))
    && (forall i :: 0 <= i < count && Occupied(slots, i) ==>
          && slots[i].entry.value.normalizedKey in index
          && i <= index[slots[i].entry.value.normalizedKey].index)
  }

  lemma {:induction false} IndexOfEntries(slots: seq<Slot>, count: nat)
    requires count <= |slots|
    ensures ReadsSlots(IndexOf(slots, count), slots, count)
  {
    if count > 0 {
      IndexOfEntries(slots, count - 1);
      var before, index := IndexOf(slots, count - 1), IndexOf(slots, count);
      forall k | k in index ensures index[k].index < count && RefersTo(slots, index[k], k) {
        if k in before {
          assert RefersTo(slots, before[k], k);
        }
      }
    }
  }

  ghost predicate DistinctKeys(slots: seq<Slot>) {
    forall i, j ::
      && Occupied(slots, i) && Occupied(slots, j)
      && slots[i].entry.value.normalizedKey == slots[j].entry.value.normalizedKey ==>
        i == j
  }

  /** In a valid memory no two slots hold records of one key. */
  lemma KeysAreDistinct(m: Stm)
    requires Rep(m)
    ensures DistinctKeys(m.slots)
  {
  }

  /** Rebuilding over distinct normal keys establishes the representation, whatever the index was. */
  lemma RebuildEstablishesRep(slots: seq<Slot>, nextGeneration: nat)
    requires DistinctKeys(slots)
    requires forall i :: Occupied(slots, i) ==> EntryNormal(slots[i].entry.value)
    requires forall i :: 0 <= i < |slots| ==> slots[i].generation < nextGeneration
    ensures Rep(Stm(slots, IndexOf(slots, |slots|), nextGeneration))
  {
    IndexOfEntries(slots, |slots|);
    var index := IndexOf(slots, |slots|);
    forall i | Occupied(slots, i)
      ensures index[slots[i].entry.value.normalizedKey].index == i
    {
      assert RefersTo(slots, index[slots[i].entry.value.normalizedKey], slots[i].entry.value.normalizedKey);
    }
  }

  /** The index of a valid memory is the one a rebuild reads off its slots. */
  lemma RebuildRestoresIndex(m: Stm)
    requires Rep(m)
    ensures IndexOf(m.slots, |m.slots|) == m.index
  {
    hide NormalizeKey;
    IndexOfEntries(m.slots, |m.slots|);
    var rebuilt := IndexOf(m.slots, |m.slots|);
    forall k | k in m.index ensures k in rebuilt {
      assert RefersTo(m.slots, m.index[k], k);
    }
    forall k | k in rebuilt ensures k in m.index && rebuilt[k] == m.index[k] {
      assert RefersTo(m.slots, rebuilt[k], k);
    }
  }

  // ---------- choosing a slot ----------

  /** The first empty slot, at or after `from`. */
  function FirstFree(slots: seq<Slot>, from: nat): (free: Option<nat>)
    requires from <= |slots|
    ensures match free
            case None => forall i :: from <= i < |slots| ==> slots[i].entry.Some?
            case Some(i) => i < |slots| && slots[i].entry.None? && forall j :: from <= j < i ==> slots[j].entry.Some?
    decreases |slots| - from
  {
    if from == |slots| then None
    else if slots[from].entry.None? then Some(from)
    else FirstFree(slots, from + 1)
  }

  /** Evicted first: the lower score, then the older update. */
  predicate Weaker(left: MemoryRecord, right: MemoryRecord) {
    left.score < right.score || (left.score == right.score && left.updatedMs < right.updatedMs)
  }

  predicate Evictable(slot: Slot) {
    slot.entry.Some? && !slot.entry.value.pinned
  }

  /** The weakest unpinned slot among the first `count`, the earliest of equals, as `min_by` picks it. */
  function EvictionCandidate(slots: seq<Slot>, count: nat): (candidate: Option<nat>)
    requires count <= |slots|
    ensures IsCandidate(slots, count, candidate)
  {
    if count == 0 then None
    else
      var best := EvictionCandidate(slots, count - 1);
      var slot := slots[count - 1];
      if !Evictable(slot) then best
      else if best.None? || Weaker(slot.entry.value, slots[best.value].entry.value) then Some(count - 1)
      else best
  }

  ghost predicate IsCandidate(slots: seq<Slot>, count: nat, candidate: Option<nat>)
    requires count <= |slots|
  {
    match candidate
    case None => forall i :: 0 <= i < count ==> !Evictable(slots[i])
    case Some(c) =>
      && c < count && Evictable(slots[c])
      && (forall i :: 0 <= i < count && Evictable(slots[i]) ==> !Weaker(slots[i].entry.value, slots[c].entry.value))
      && (forall i :: 0 <= i < c && Evictable(slots[i]) ==> Weaker(slots[c].entry.value, slots[i].entry.value))
  }

  lemma CandidateIsUnique(slots: seq<Slot>, a: Option<nat>, b: Option<nat>)
    requires IsCandidate(slots, |slots|, a) && IsCandidate(slots, |slots|, b)
    ensures a == b
  {
    assert a.Some? ==> Evictable(slots[a.value]);
    assert b.Some? ==> Evictable(slots[b.value]);
  }

  // ---------- upsert ----------

  /** An existing record takes over the new content and is reinforced. */
  function Reinforced(existing: MemoryRecord, entry: MemoryRecord): MemoryRecord {
    existing.(
      value := entry.value,
      updatedMs := entry.updatedMs,
      accessCount := existing.accessCount + 1,
      score := MinReal(existing.score + 0.1, 1.0),
      pinned := existing.pinned || entry.pinned,
      evidence := existing.evidence + entry.evidence,
      fileHashes := existing.fileHashes + entry.fileHashes)
  }

  /**
    Reinforcement keeps who the record is and what was established about it, takes
    over value and date, counts an access, adds a tenth to the score up to one,
    keeps or gains the pin, appends the evidence and lets the new hashes win.
   */
  lemma ReinforcementKeepsIdentity(existing: MemoryRecord, entry: MemoryRecord)
    ensures var r := Reinforced(existing, entry);
            && r.id == existing.id && r.key == existing.key && r.normalizedKey == existing.normalizedKey
            && r.kind == existing.kind && r.scope == existing.scope && r.provenance == existing.provenance
            && r.verified == existing.verified && r.stale == existing.stale && r.tombstone == existing.tombstone
            && r.createdMs == existing.createdMs
            && r.value == entry.value && r.updatedMs == entry.updatedMs && r.accessCount == existing.accessCount + 1
            && (existing.score <= 0.9 ==> r.score == existing.score + 0.1)
            && (existing.score > 0.9 ==> r.score == 1.0)
            && (r.pinned <==> existing.pinned || entry.pinned)
            && |r.evidence| == |existing.evidence| + |entry.evidence|
            && r.evidence[..|existing.evidence|] == existing.evidence
            && r.evidence[|existing.evidence|..] == entry.evidence
            && r.fileHashes.Keys == existing.fileHashes.Keys + entry.fileHashes.Keys
            && (forall p :: p in entry.fileHashes ==> r.fileHashes[p] == entry.fileHashes[p])
            && (forall p :: p in existing.fileHashes && p !in entry.fileHashes ==>
                r.fileHashes[p] == existing.fileHashes[p])
  {
  }

  predicate IsStored(m: Stm, key: string) {
    && key in m.index
    && m.index[key].index < |m.slots|
    && m.slots[m.index[key].index].generation == m.index[key].generation
    && m.slots[m.index[key].index].entry.Some?
  }

  /** The slot a new key goes to. */
  function Target(slots: seq<Slot>): Option<nat> {
    var free := FirstFree(slots, 0);
    if free.Some? then free else EvictionCandidate(slots, |slots|)
  }

  function Without(index: map<string, SlotRef>, key: string): map<string, SlotRef> {
    map k | k in index && k != key :: index[k]
  }

  /** Emptying a slot takes its key out of the index if the index still means this slot. */
  function Vacated(m: Stm, target: nat): map<string, SlotRef>
    requires target < |m.slots|
  {
    var slot := m.slots[target];
    if slot.entry.None? then m.index
    else
      var key := slot.entry.value.normalizedKey;
      if key in m.index && m.index[key] == SlotRef(target, slot.generation) then Without(m.index, key) else m.index
  }

  function Placed(m: Stm, target: nat, entry: MemoryRecord): Stm
    requires target < |m.slots|
  {
    Stm(m.slots[target := Slot(m.nextGeneration, Some(entry))],
        Vacated(m, target)[entry.normalizedKey := SlotRef(target, m.nextGeneration)],
        m.nextGeneration + 1)
  }

  datatype Upserted = Upserted(memory: Stm, id: Result<string>)

  function Upsert(m: Stm, raw: MemoryRecord): Upserted {
    var entry := Normalized(raw);
    var key := entry.normalizedKey;
    if IsStored(m, key) then
      var at := m.index[key].index;
      var existing := m.slots[at].entry.value;
      Upserted(m.(slots := m.slots[at := m.slots[at].(entry := Some(Reinforced(existing, entry)))]), Ok(existing.id))
    else
      var clean := m.(index := Without(m.index, key));
      var target := Target(m.slots);
      if target.None? then Upserted(clean, Err)
      else Upserted(Placed(clean, target.value, entry), Ok(entry.id))
  }

  // ---------- upsert is an update of a bounded map ----------

  lemma ReinforcedKeepsRep(m: Stm, raw: MemoryRecord)
    requires Rep(m) && NormalizeKey(raw.key) in m.index
    ensures var key := NormalizeKey(raw.key);
            && IsStored(m, key)
            && Rep(Upsert(m, raw).memory)
            && Contents(Upsert(m, raw).memory) == Contents(m)[key := Reinforced(Contents(m)[key], Normalized(raw))]
            && Upsert(m, raw).id == Ok(Contents(m)[key].id)
  {
    hide NormalizeKey;
    var key := NormalizeKey(raw.key);
    assert RefersTo(m.slots, m.index[key], key);
    var after := Upsert(m, raw).memory;
    forall k | k in after.index ensures RefersTo(after.slots, after.index[k], k) {
      assert RefersTo(m.slots, m.index[k], k);
    }
    assert Rep(after);
    forall k | k in m.index && k != key ensures m.index[k].index != m.index[key].index {
      assert RefersTo(m.slots, m.index[k], k);
    }
  }

  lemma PlacedKeepsRep(m: Stm, target: nat, entry: MemoryRecord)
    requires Rep(m) && target < |m.slots| && entry.normalizedKey !in m.index && EntryNormal(entry)
    ensures Rep(Placed(m, target, entry))
  {
    hide NormalizeKey;
    var after := Placed(m, target, entry);
    forall k | k in after.index ensures RefersTo(after.slots, after.index[k], k) {
      if k != entry.normalizedKey {
        assert RefersTo(m.slots, m.index[k], k);
      }
    }
    forall i | Occupied(after.slots, i)
      ensures var key := after.slots[i].entry.value.normalizedKey;
              EntryNormal(after.slots[i].entry.value) && key in after.index && after.index[key].index == i
    {
      if i != target {
        assert Occupied(m.slots, i);
      }
    }
  }

  lemma PlacedContents(m: Stm, target: nat, entry: MemoryRecord)
    requires Rep(m) && target < |m.slots| && entry.normalizedKey !in m.index && EntryNormal(entry)
    requires Rep(Placed(m, target, entry))
    ensures Contents(Placed(m, target, entry))
         == (if m.slots[target].entry.Some? then Contents(m) - {m.slots[target].entry.value.normalizedKey}
             else Contents(m))
            [entry.normalizedKey := entry]
  {
    hide NormalizeKey, EntryNormal, Rep;
    var after := Placed(m, target, entry);
    forall k | k in m.index
      ensures m.index[k].index == target
          <==> m.slots[target].entry.Some? && m.slots[target].entry.value.normalizedKey == k
      ensures m.index[k].index < |m.slots| && m.slots[m.index[k].index].entry.Some?
    {
      KeyAtSlot(m, target, k);
    }
    VacatedSlot(m, target);
    assert after.index.Keys == Vacated(m, target).Keys + {entry.normalizedKey};
  }

  /** In a valid memory emptying a slot always takes its key out of the index. */
  lemma VacatedSlot(m: Stm, target: nat)
    requires Rep(m) && target < |m.slots|
    ensures Vacated(m, target)
         == (if m.slots[target].entry.Some? then Without(m.index, m.slots[target].entry.value.normalizedKey)
             else m.index)
  {
    hide NormalizeKey;
    if m.slots[target].entry.Some? {
      var key := m.slots[target].entry.value.normalizedKey;
      assert Occupied(m.slots, target);
      assert RefersTo(m.slots, m.index[key], key);
    }
  }

  lemma KeyAtSlot(m: Stm, i: nat, k: string)
    requires Rep(m) && i < |m.slots| && k in m.index
    ensures m.index[k].index == i <==> m.slots[i].entry.Some? && m.slots[i].entry.value.normalizedKey == k
    ensures m.index[k].index < |m.slots| && m.slots[m.index[k].index].entry.Some?
  {
    hide NormalizeKey;
    assert RefersTo(m.slots, m.index[k], k);
  }

  /** The victim: an unpinned record of least score, and of those with that score one updated first. */
  ghost predicate IsVictim(contents: map<string, MemoryRecord>, key: string) {
    && key in contents && !contents[key].pinned
    && forall k :: k in contents && !contents[k].pinned ==>
         || contents[key].score < contents[k].score
         || (contents[key].score == contents[k].score && contents[key].updatedMs <= contents[k].updatedMs)
  }

  ghost predicate AllPinned(contents: map<string, MemoryRecord>) {
    forall k :: k in contents ==> contents[k].pinned
  }

  /** What an upsert does to the records, by cases on what is stored. */
  ghost predicate UpsertsMap(before: map<string, MemoryRecord>, capacity: nat, raw: MemoryRecord,
                             after: map<string, MemoryRecord>, id: Result<string>)
  {
    var entry := Normalized(raw);
    var key := entry.normalizedKey;
    if key in before then
      after == before[key := Reinforced(before[key], entry)] && id == Ok(before[key].id)
    else if |before| < capacity then
      after == before[key := entry] && id == Ok(entry.id)
    else if AllPinned(before) then
      after == before && id == Err
    else
      id == Ok(entry.id) && exists victim :: IsVictim(before, victim) && after == (before - {victim})[key := entry]
  }

  ghost function OccupiedSet(slots: seq<Slot>): set<nat> {
    set i: nat | i < |slots| && slots[i].entry.Some?
  }

  lemma {:induction false} SlotsBound(slots: set<nat>, count: nat)
    requires forall i :: i in slots ==> i < count
    ensures |slots| <= count
    ensures |slots| == count <==> forall i: nat :: i < count ==> i in slots
    decreases count
  {
    if count == 0 {
      assert slots == {};
    } else {
      var rest := slots - {count - 1};
      SlotsBound(rest, count - 1);
      if count - 1 in slots {
        assert slots == rest + {count - 1};
      } else {
        assert slots == rest;
      }
    }
  }

  lemma {:induction false} SameSize(keys: set<string>, index: map<string, SlotRef>, slots: set<nat>)
    requires keys <= index.Keys
    requires forall k :: k in keys ==> index[k].index in slots
    requires forall i :: i in slots ==> exists k :: k in keys && index[k].index == i
    requires forall a, b :: a in keys && b in keys && index[a].index == index[b].index ==> a == b
    ensures |keys| == |slots|
    decreases |keys|
  {
    if keys == {} {
      assert slots == {};
    } else {
      var k :| k in keys;
      SameSize(keys - {k}, index, slots - {index[k].index});
    }
  }

  /** There are as many keys as occupied slots. */
  lemma ContentsFitSlots(m: Stm)
    requires Rep(m)
    ensures |Contents(m)| == |OccupiedSet(m.slots)| <= |m.slots|
    ensures |Contents(m)| < |m.slots| <==> FirstFree(m.slots, 0).Some?
  {
    hide NormalizeKey;
    var slots := OccupiedSet(m.slots);
    forall k | k in m.index ensures m.index[k].index in slots {
      assert RefersTo(m.slots, m.index[k], k);
    }
    forall i | i in slots ensures exists k :: k in m.index.Keys && m.index[k].index == i {
      assert Occupied(m.slots, i);
      assert m.slots[i].entry.value.normalizedKey in m.index.Keys;
    }
    forall a, b | a in m.index && b in m.index && m.index[a].index == m.index[b].index ensures a == b {
      assert RefersTo(m.slots, m.index[a], a) && RefersTo(m.slots, m.index[b], b);
    }
    SameSize(m.index.Keys, m.index, slots);
    assert Contents(m).Keys == m.index.Keys;
    SlotsBound(slots, |m.slots|);
    var free := FirstFree(m.slots, 0);
    if free.Some? {
      assert free.value !in slots;
    } else {
      forall i: nat | i < |m.slots| ensures i in slots {
        assert m.slots[i].entry.Some?;
      }
    }
  }

  /** The eviction candidate of a full memory is a victim of its contents. */
  lemma CandidateIsVictim(m: Stm)
    requires Rep(m)
    ensures match EvictionCandidate(m.slots, |m.slots|)
            case None => AllPinned(Contents(m))
            case Some(c) => IsVictim(Contents(m), m.slots[c].entry.value.normalizedKey)
  {
    var contents := Contents(m);
    forall k | k in contents ensures m.slots[m.index[k].index].entry == Some(contents[k]) {
      assert RefersTo(m.slots, m.index[k], k);
    }
    var candidate := EvictionCandidate(m.slots, |m.slots|);
    if candidate.Some? {
      assert Occupied(m.slots, candidate.value);
      forall k | k in contents && !contents[k].pinned
        ensures !Weaker(contents[k], m.slots[candidate.value].entry.value)
      {
        assert Evictable(m.slots[m.index[k].index]);
      }
    } else {
      forall k | k in contents ensures contents[k].pinned {
        assert !Evictable(m.slots[m.index[k].index]);
      }
    }
  }

  lemma WithoutAbsent(index: map<string, SlotRef>, key: string)
    requires key !in index
    ensures Without(index, key) == index
  {
  }

  /** Upsert keeps the representation and is exactly the bounded map update; a failure changes nothing. */
  lemma UpsertRefinesMap(m: Stm, raw: MemoryRecord)
    requires Rep(m)
    ensures var after := Upsert(m, raw);
            && Rep(after.memory) && |after.memory.slots| == |m.slots|
            && UpsertsMap(Contents(m), |m.slots|, raw, Contents(after.memory), after.id)
            && (after.id.Err? ==> after.memory == m)
  {
    var entry := Normalized(raw);
    var key := entry.normalizedKey;
    if key in m.index {
      ReinforcedKeepsRep(m, raw);
    } else {
      WithoutAbsent(m.index, key);
      ContentsFitSlots(m);
      CandidateIsVictim(m);
      var target := Target(m.slots);
      if target.Some? {
        PlacedKeepsRep(m, target.value, entry);
        PlacedContents(m, target.value, entry);
      }
    }
  }

  // ---------- decay ----------

  function Clamp(x: real): real {
    MaxReal(0.0, MinReal(x, 1.0))
  }

  function Scaled(score: real, beta: real): real {
    Clamp(score * beta)
  }

  function Decayed(slot: Slot, beta: real): Slot {
    if !Evictable(slot) then slot
    else slot.(entry := Some(slot.entry.value.(score := Scaled(slot.entry.value.score, beta))))
  }

  function DecayAll(slots: seq<Slot>, beta: real): (r: seq<Slot>)
    ensures |r| == |slots|
  {
    seq(|slots|, i requires 0 <= i < |slots| => Decayed(slots[i], beta))
  }

  function Decay(m: Stm, beta: real): Stm {
    m.(slots := DecayAll(m.slots, beta))
  }

  /** The product, cut off at zero and at one. */
  ghost predicate IsScaled(scaled: real, score: real, beta: real) {
    if score * beta <= 0.0 then scaled == 0.0
    else if score * beta >= 1.0 then scaled == 1.0
    else scaled == score * beta
  }

  /** Decay scales the scores of unpinned records and changes nothing else about them; pins and empty slots stay. */
  lemma DecayChangesScores(slots: seq<Slot>, beta: real, i: nat)
    requires i < |slots|
    ensures var slot, later := slots[i], DecayAll(slots, beta)[i];
            && later.generation == slot.generation && (later.entry.Some? <==> slot.entry.Some?)
            && (slot.entry.Some? && slot.entry.value.pinned ==> later.entry == slot.entry)
            && (slot.entry.Some? && !slot.entry.value.pinned ==>
                  && IsScaled(later.entry.value.score, slot.entry.value.score, beta)
                  && later.entry.value.(score := slot.entry.value.score) == slot.entry.value)
  {
  }

  /** Slots that differ in nothing the index looks at. */
  ghost predicate SameKeys(slots: seq<Slot>, later: seq<Slot>) {
    && |later| == |slots|
    && forall i :: 0 <= i < |slots| ==>
         && later[i].generation == slots[i].generation
         && later[i].entry.Some? == slots[i].entry.Some?
         && (slots[i].entry.Some? ==>
               && later[i].entry.value.key == slots[i].entry.value.key
               && later[i].entry.value.normalizedKey == slots[i].entry.value.normalizedKey)
  }

  lemma SameKeysKeepRep(m: Stm, later: seq<Slot>)
    requires Rep(m) && SameKeys(m.slots, later)
    ensures Rep(m.(slots := later)) && Contents(m.(slots := later)).Keys == Contents(m).Keys
  {
    forall k | k in m.index ensures RefersTo(later, m.index[k], k) {
      assert RefersTo(m.slots, m.index[k], k);
    }
    forall i | Occupied(later, i) ensures Occupied(m.slots, i) && EntryNormal(later[i].entry.value) {
    }
  }

  lemma ScaleMonotone(a: real, b: real, beta: real)
    requires a <= b && 0.0 <= beta
    ensures Scaled(a, beta) <= Scaled(b, beta)
  {
    ProductMonotone(a, b, beta);
    ClampMonotone(a * beta, b * beta);
  }

  lemma ProductMonotone(a: real, b: real, beta: real)
    requires a <= b && 0.0 <= beta
    ensures a * beta <= b * beta
  {
    assert 0.0 <= (b - a) * beta;
  }

  lemma ClampMonotone(x: real, y: real)
    requires x <= y
    ensures Clamp(x) <= Clamp(y)
  {
  }

  /** Decay maps two different scores to one: by a factor of zero, or at either end of the clamp. */
  predicate Merges(a: real, b: real, beta: real) {
    beta == 0.0 || (a * beta >= 1.0 && b * beta >= 1.0) || (a <= 0.0 && b <= 0.0)
  }

  lemma MergesIff(a: real, b: real, beta: real)
    requires 0.0 <= beta
    ensures Scaled(a, beta) == Scaled(b, beta) <==> a == b || Merges(a, b, beta)
  {
    if 0.0 < beta {
      ScaleSign(a, beta);
      ScaleSign(b, beta);
      if a * beta == b * beta {
        ScaleInjective(a, b, beta);
      }
    }
  }

  lemma ScaleSign(a: real, beta: real)
    requires 0.0 < beta
    ensures a * beta <= 0.0 <==> a <= 0.0
  {
    if a > 0.0 {
      assert a * beta > 0.0;
    } else {
      ProductMonotone(a, 0.0, beta);
    }
  }

  /** Decay merges the slot's score with the candidate's, and the slot is older or as old and earlier. */
  predicate DecayOvertakes(slots: seq<Slot>, beta: real, c: nat, i: nat)
    requires c < |slots| && Evictable(slots[c]) && i < |slots|
  {
    && Evictable(slots[i])
    && var entry, candidate := slots[i].entry.value, slots[c].entry.value;
    && Merges(entry.score, candidate.score, beta)
    && (entry.updatedMs < candidate.updatedMs || (entry.updatedMs == candidate.updatedMs && i < c))
  }

  lemma DecayKeepsWeakest(slots: seq<Slot>, beta: real, c: nat)
    requires 0.0 <= beta && IsCandidate(slots, |slots|, Some(c))
    requires forall i: nat :: i < |slots| ==> !DecayOvertakes(slots, beta, c, i)
    ensures IsCandidate(DecayAll(slots, beta), |slots|, Some(c))
  {
    var later := DecayAll(slots, beta);
    forall i: nat | i < |slots| && Evictable(later[i])
      ensures !Weaker(later[i].entry.value, later[c].entry.value)
      ensures i < c ==> Weaker(later[c].entry.value, later[i].entry.value)
    {
      assert Evictable(slots[i]) && !DecayOvertakes(slots, beta, c, i);
      MergesIff(slots[i].entry.value.score, slots[c].entry.value.score, beta);
      ScaleMonotone(slots[c].entry.value.score, slots[i].entry.value.score, beta);
      assert later[c].entry.value.score <= later[i].entry.value.score;
    }
  }

  lemma OvertakenIsNotCandidate(slots: seq<Slot>, beta: real, c: nat, i: nat)
    requires 0.0 <= beta
    requires c < |slots| && Evictable(slots[c]) && i < |slots| && DecayOvertakes(slots, beta, c, i)
    ensures !IsCandidate(DecayAll(slots, beta), |slots|, Some(c))
  {
    MergesIff(slots[i].entry.value.score, slots[c].entry.value.score, beta);
    assert Evictable(DecayAll(slots, beta)[i]);
  }

  /**
    Decay by a non-negative factor keeps the eviction candidate exactly unless it
    merges the score of an older record with the candidate's.
   */
  lemma DecayKeepsCandidateIff(slots: seq<Slot>, beta: real)
    requires 0.0 <= beta
    ensures EvictionCandidate(DecayAll(slots, beta), |slots|) == EvictionCandidate(slots, |slots|)
       <==> (EvictionCandidate(slots, |slots|).Some? ==>
               forall i: nat :: i < |slots| ==>
                 !DecayOvertakes(slots, beta, EvictionCandidate(slots, |slots|).value, i))
  {
    var candidate, later := EvictionCandidate(slots, |slots|), DecayAll(slots, beta);
    if candidate.None? {
      assert IsCandidate(later, |later|, None);
    } else if forall i: nat :: i < |slots| ==> !DecayOvertakes(slots, beta, candidate.value, i) {
      DecayKeepsWeakest(slots, beta, candidate.value);
    } else {
      var i: nat :| i < |slots| && DecayOvertakes(slots, beta, candidate.value, i);
      OvertakenIsNotCandidate(slots, beta, candidate.value, i);
      return;
    }
    CandidateIsUnique(later, candidate, EvictionCandidate(later, |later|));
  }

  /** Scores of 1.5 and 2.0 both clamp to 1.0, so the stronger record is evicted instead if it is older. */
  lemma DecayChangesCandidate(weak: MemoryRecord, strong: MemoryRecord)
    requires !weak.pinned && weak.score == 1.5 && !strong.pinned && strong.score == 2.0
    requires strong.updatedMs < weak.updatedMs
    ensures var slots := [Slot(1, Some(weak)), Slot(2, Some(strong))];
            && EvictionCandidate(slots, 2) == Some(0)
            && EvictionCandidate(DecayAll(slots, 1.0), 2) == Some(1)
  {
    hide EvictionCandidate;
    var slots := [Slot(1, Some(weak)), Slot(2, Some(strong))];
    var later := DecayAll(slots, 1.0);
    assert later[0].entry.value.score == 1.0 && later[1].entry.value.score == 1.0;
    assert Evictable(slots[0]) && Evictable(slots[1]) && Evictable(later[0]) && Evictable(later[1]);
    CandidateIsUnique(slots, Some(0), EvictionCandidate(slots, 2));
    CandidateIsUnique(later, Some(1), EvictionCandidate(later, 2));
  }

  ghost predicate ScoresInUnit(slots: seq<Slot>) {
    forall i :: 0 <= i < |slots| && slots[i].entry.Some? ==> 0.0 <= slots[i].entry.value.score <= 1.0
  }

  lemma UnitDecay(slot: Slot, beta: real)
    requires slot.entry.Some? && 0.0 <= slot.entry.value.score <= 1.0 && 0.0 < beta <= 1.0
    ensures 0.0 <= Decayed(slot, beta).entry.value.score <= 1.0
    ensures Evictable(slot) ==> Decayed(slot, beta).entry.value.score == slot.entry.value.score * beta
    ensures slot.entry.value.pinned ==> Decayed(slot, beta) == slot
  {
    UnitProduct(slot.entry.value.score, beta);
    ClampInUnit(slot.entry.value.score * beta);
  }

  lemma UnitProduct(a: real, b: real)
    requires 0.0 <= a <= 1.0 && 0.0 < b <= 1.0
    ensures 0.0 <= a * b <= 1.0
  {
    var rest := 1.0 - a;
    assert 0.0 <= a * b;
    assert 0.0 <= rest * b;
    assert a * b == b - rest * b;
  }

  lemma ClampInUnit(x: real)
    requires 0.0 <= x <= 1.0
    ensures Clamp(x) == x
  {
  }

  lemma ScaleInjective(a: real, b: real, beta: real)
    requires a * beta == b * beta && 0.0 < beta
    ensures a == b
  {
    assert (a - b) * beta == 0.0;
  }

  /** For scores in the unit interval a factor in (0, 1] never changes which record would be evicted. */
  lemma DecayKeepsCandidate(slots: seq<Slot>, beta: real)
    requires ScoresInUnit(slots) && 0.0 < beta <= 1.0
    ensures EvictionCandidate(DecayAll(slots, beta), |slots|) == EvictionCandidate(slots, |slots|)
    ensures ScoresInUnit(DecayAll(slots, beta))
  {
    DecayKeepsCandidateIff(slots, beta);
    var candidate := EvictionCandidate(slots, |slots|);
    forall i: nat | i < |slots| && slots[i].entry.Some?
      ensures 0.0 <= Decayed(slots[i], beta).entry.value.score <= 1.0
    {
      UnitDecay(slots[i], beta);
    }
    if candidate.Some? {
      forall i: nat | i < |slots| ensures !DecayOvertakes(slots, beta, candidate.value, i) {
        NoOvertaking(slots, beta, candidate.value, i);
      }
    }
  }

  lemma NoOvertaking(slots: seq<Slot>, beta: real, c: nat, i: nat)
    requires ScoresInUnit(slots) && 0.0 < beta <= 1.0
    requires IsCandidate(slots, |slots|, Some(c)) && i < |slots|
    ensures !DecayOvertakes(slots, beta, c, i)
  {
    if Evictable(slots[i]) {
      UnitMerge(slots[i].entry.value.score, slots[c].entry.value.score, beta);
    }
  }

  lemma UnitMerge(a: real, b: real, beta: real)
    requires 0.0 <= a <= 1.0 && 0.0 <= b <= 1.0 && 0.0 < beta <= 1.0
    ensures Merges(a, b, beta) ==> a == b
  {
    UnitProduct(a, beta);
    UnitProduct(b, beta);
    if a * beta == b * beta {
      ScaleInjective(a, b, beta);
    }
  }

  // ---------- remove ----------

  datatype Removed = Removed(memory: Stm, removed: bool)

  function Remove(m: Stm, rawKey: string): Removed {
    var key := NormalizeKey(rawKey);
    if key !in m.index then Removed(m, false)
    else
      var reference := m.index[key];
      var clean := m.(index := Without(m.index, key));
      if reference.index >= |m.slots| then Removed(clean, false)
      else if m.slots[reference.index].generation != reference.generation then Removed(clean, false)
      else
        Removed(clean.(slots := m.slots[reference.index := m.slots[reference.index].(entry := None)]),
                m.slots[reference.index].entry.Some?)
  }

  /** Removing takes exactly the named record out and reports whether it was there. */
  lemma RemoveRefinesMap(m: Stm, rawKey: string)
    requires Rep(m)
    ensures var after := Remove(m, rawKey);
            && Rep(after.memory) && |after.memory.slots| == |m.slots|
            && Contents(after.memory) == Contents(m) - {NormalizeKey(rawKey)}
            && after.removed == (NormalizeKey(rawKey) in Contents(m))
  {
    hide NormalizeKey;
    var key := NormalizeKey(rawKey);
    if key in m.index {
      assert RefersTo(m.slots, m.index[key], key);
      var after := Remove(m, rawKey).memory;
      forall k | k in after.index
        ensures RefersTo(after.slots, after.index[k], k) && m.index[k].index != m.index[key].index
      {
        assert RefersTo(m.slots, m.index[k], k);
      }
      assert Rep(after);
    }
  }
}
