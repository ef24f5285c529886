/**
  Short-term memory as the Rust crate has it (crates/tst-core/src/stm.rs): an
  object that updates its slots, its index and its generation counter in place.
  Each method is proved to do what `StmModel`, `StmQuery` and `StmRuns` say.
 */
module ShortTermMemory {
  import opened Wrappers
  import opened Memory
  import opened Sorting
  import opened StmModel
  import opened StmQuery
  import opened StmRuns

  class ShortTermMemory {
    const sessionId: string
    var slots: array<Slot>
    var index: map<string, SlotRef>
    var nextGeneration: nat

    ghost function Value(): Stm
      reads this, slots
    {
      Stm(slots[..], index, nextGeneration)
    }

    ghost predicate Valid()
      reads this, slots
    {
      slots.Length > 0 && Rep(Value())
    }

    constructor (sessionId: string, capacity: nat)
      requires capacity > 0
      ensures Valid() && Value() == Empty(capacity) && fresh(slots)
    {
      this.sessionId := sessionId;
      slots := new Slot[capacity](_ => Slot(0, None));
      index, nextGeneration := map[], 1;
      new;
      assert Value().slots == Empty(capacity).slots;
    }

    /** Restores the index of a valid memory from its slots; needs no index to start from. */
    method RebuildIndex()
      modifies this`index
      ensures Value() == old(Step(Value(), RebuildOp))
      ensures old(Valid()) ==> Value() == old(Value())
    {
      index := map[];
      for i := 0 to slots.Length
        invariant index == IndexOf(slots[..], i)
      {
        var slot := slots[i];
        assert slots[..][i] == slot;
        if slot.entry.Some? {
          index := index[slot.entry.value.normalizedKey := SlotRef(i, slot.generation)];
        }
      }
      if old(Valid()) {
        RebuildRestoresIndex(old(Value()));
      }
    }

    method UpsertEntry(raw: MemoryRecord) returns (id: Result<string>)
      requires Valid()
      modifies this, slots
      ensures slots == old(slots) && Valid()
      ensures Value() == old(Upsert(Value(), raw)).memory && id == old(Upsert(Value(), raw)).id
      ensures UpsertsMap(old(Contents(Value())), slots.Length, raw, Contents(Value()), id)
      ensures id.Err? ==> Value() == old(Value())
    {
      hide NormalizeKey, FirstFree, EvictionCandidate, Rep, Contents, UpsertsMap, Placed;
      ghost var before := Value();
      UpsertRefinesMap(before, raw);
      var entry := Normalized(raw);
      if entry.normalizedKey in index {
        var reference := index[entry.normalizedKey];
        if reference.index < slots.Length {
          var slot := slots[reference.index];
          if slot.generation == reference.generation {
            if slot.entry.Some? {
              slots[reference.index] := slot.(entry := Some(Reinforced(slot.entry.value, entry)));
              return Ok(slot.entry.value.id);
            }
          }
        }
        index := Without(index, entry.normalizedKey);
      }
      assert Without(before.index, entry.normalizedKey) == index;
      var target := FirstFree(slots[..], 0);
      if target.None? {
        target := EvictionCandidate(slots[..], slots.Length);
      }
      if target.None? {
        return Err;
      }
      Place(target.value, entry);
      return Ok(entry.id);
    }

    /** Empties a slot, and fills it with a new entry of the next generation. */
    method Place(at: nat, entry: MemoryRecord)
      requires at < slots.Length
      modifies this, slots
      ensures slots == old(slots) && Value() == Placed(old(Value()), at, entry)
    {
      var previous := slots[at];
      if previous.entry.Some? {
        var key := previous.entry.value.normalizedKey;
        if key in index && index[key].index == at && index[key].generation == previous.generation {
          index := Without(index, key);
        }
      }
      slots[at] := Slot(nextGeneration, Some(entry));
      index := index[entry.normalizedKey := SlotRef(at, nextGeneration)];
      nextGeneration := nextGeneration + 1;
    }

    method DecayScores(beta: real)
      requires Valid()
      modifies slots
      ensures Valid() && Value() == old(Decay(Value(), beta))
    {
      hide Rep, Scaled;
      for i := 0 to slots.Length
        invariant forall j :: 0 <= j < i ==> slots[j] == Decayed(old(slots[..])[j], beta)
        invariant forall j :: i <= j < slots.Length ==> slots[j] == old(slots[..])[j]
      {
        var slot := slots[i];
        if slot.entry.Some? {
          if !slot.entry.value.pinned {
            slots[i] := slot.(entry := Some(slot.entry.value.(score := Scaled(slot.entry.value.score, beta))));
          }
        }
      }
      assert slots[..] == DecayAll(old(slots[..]), beta);
      DecayKeepsRep(old(Value()), beta);
    }

    method Query(query: string, limit: nat, now: int) returns (result: seq<MemoryRecord>)
      requires Valid()
      modifies slots
      ensures Valid() && Value() == old(Step(Value(), QueryOp(query)))
      ensures result == old(QueryResult(query, slots[..], limit, now))
      ensures exists picked :: PicksBest(result, picked, LowerAll(Words(query)), old(slots[..]), limit, now)
    {
      var hadTermMatch;
      result, hadTermMatch := QueryMatched(query, limit, now);
    }

    method QueryMatched(query: string, limit: nat, now: int) returns (result: seq<MemoryRecord>, hadTermMatch: bool)
      requires Valid()
      modifies slots
      ensures Valid() && Value() == old(Step(Value(), QueryOp(query)))
      ensures result == old(QueryResult(query, slots[..], limit, now))
      ensures hadTermMatch == old(AnyMatch(Terms(query), slots[..]))
      ensures exists picked :: PicksBest(result, picked, LowerAll(Words(query)), old(slots[..]), limit, now)
      ensures hadTermMatch <==> Understood(LowerAll(Words(query)), old(slots[..]))
    {
      hide Rep, NormalizeKey, Relevance, Terms, Matches, StableSort, Take, AnyMatch, PicksBest, Understood, Words,
          LowerAll;
      var terms := Terms(query);
      var scored: seq<Candidate> := [];
      hadTermMatch := false;
      ghost var before := slots[..];
      NoMatchYet(terms);
      for i := 0 to slots.Length
        invariant forall j :: 0 <= j < i ==> slots[j] == Bumped(terms, before[j])
        invariant forall j :: i <= j < slots.Length ==> slots[j] == before[j]
        invariant scored == Candidates(terms, before, i, now)
        invariant hadTermMatch == AnyMatch(terms, before[..i])
      {
        var slot := slots[i];
        assert slot == before[i];
        MatchSoFar(terms, before, i);
        if slot.entry.Some? {
          var entry := slot.entry.value;
          var matches := Matches(terms, entry);
          if matches > 0 {
            hadTermMatch := true;
          }
          if matches > 0 || entry.pinned {
            slots[i] := slot.(entry := Some(Accessed(entry)));
            scored := scored + [Candidate(Relevance(matches, entry, now), Accessed(entry), i, matches)];
          }
        }
      }
      assert before[..slots.Length] == before;
      assert slots[..] == BumpAll(terms, before);
      BumpKeepsRep(old(Value()), terms);
      scored := StableSort(Outranks, scored);
      result := Records(Take(scored, limit));
      ghost var picked := QueryPicksBest(query, before, limit, now);
      TermsAreWords(query);
      AnyMatchIff(terms, before);
    }

    method QueryWithRecent(query: string, limit: nat, recentFallback: nat, now: int) returns (result: seq<MemoryRecord>)
      requires Valid()
      modifies slots
      ensures Valid() && Value() == old(Step(Value(), QueryOp(query)))
      ensures result == old(PaddedResult(query, slots[..], limit, recentFallback, now))
      ensures exists plain, picked ::
                && plain <= result && PicksBest(plain, picked, LowerAll(Words(query)), old(slots[..]), limit, now)
                && (Understood(LowerAll(Words(query)), old(slots[..])) ==> result == plain)
                && (!Understood(LowerAll(Words(query)), old(slots[..])) ==>
                      PadsWithNewest(result[|plain|..], EntriesOf(slots[..]), IdsOf(plain),
                                     MinNat(recentFallback, limit - |plain|)))
    {
      hide Rep, NormalizeKey, QueryResult, PicksBest, Understood, PadsWithNewest, Words, LowerAll;
      var hadTermMatch;
      result, hadTermMatch := QueryMatched(query, limit, now);
      PaddingIsNewest(query, old(slots[..]), limit, recentFallback, now);
      ghost var picked := QueryPicksBest(query, old(slots[..]), limit, now);
      ghost var plain := result;
      if hadTermMatch || recentFallback == 0 || |result| >= limit {
        return;
      }
      var existing := set r | r in result :: r.id;
      var recent := StableSort(Newer, NotIn(EntriesOf(slots[..]), existing));
      result := result + Take(recent, MinNat(recentFallback, limit - |result|));
    }

    /** Stages a whole new memory and swaps it in, or leaves this one untouched. */
    method ReplaceUnpinnedEntries(entries: seq<MemoryRecord>) returns (ok: bool)
      requires Valid()
      modifies this
      ensures Valid() && ok == old(ReplaceUnpinned(Value(), entries)).Ok?
      ensures ok ==> fresh(slots) && Value() == old(ReplaceUnpinned(Value(), entries)).value
      ensures !ok ==> slots == old(slots) && Value() == old(Value())
    {
      hide Rep, Contents, InsertExact, Pinned;
      var pinned := Pinned(slots[..]);
      var all := pinned + entries;
      var staged := new ShortTermMemory(sessionId, slots.Length);
      ghost var goal := ReplaceUnpinned(Value(), entries);
      assert all[0..] == all;
      for i := 0 to |all|
        invariant fresh(staged) && fresh(staged.slots) && staged.Valid()
        invariant Value() == old(Value()) && slots == old(slots)
        invariant goal == InsertAll(staged.Value(), all[i..])
      {
        assert all[i..][0] == all[i] && all[i..][1..] == all[i + 1..];
        var inserted := staged.InsertExactEntry(all[i]);
        if !inserted {
          return false;
        }
      }
      slots, index, nextGeneration := staged.slots, staged.index, staged.nextGeneration;
      return true;
    }

    method InsertExactEntry(raw: MemoryRecord) returns (ok: bool)
      requires Valid()
      modifies this, slots
      ensures slots == old(slots) && Valid()
      ensures ok == old(InsertExact(Value(), raw)).Ok?
      ensures ok ==> Value() == old(InsertExact(Value(), raw)).value
      ensures !ok ==> Value() == old(Value())
    {
      hide Rep, NormalizeKey, FirstFree, Contents;
      InsertExactRefinesMap(Value(), raw);
      var entry := Normalized(raw);
      if entry.normalizedKey in index {
        return true;
      }
      var target := FirstFree(slots[..], 0);
      if target.None? {
        return false;
      }
      slots[target.value] := Slot(nextGeneration, Some(entry));
      index := index[entry.normalizedKey := SlotRef(target.value, nextGeneration)];
      nextGeneration := nextGeneration + 1;
      return true;
    }

    method RemoveKey(key: string) returns (removed: bool)
      requires Valid()
      modifies this, slots
      ensures slots == old(slots) && Valid()
      ensures Value() == old(Remove(Value(), key)).memory && removed == old(Remove(Value(), key)).removed
      ensures Contents(Value()) == old(Contents(Value())) - {NormalizeKey(key)}
      ensures removed == (NormalizeKey(key) in old(Contents(Value())))
    {
      hide Rep, NormalizeKey, Contents;
      RemoveRefinesMap(Value(), key);
      var normalized := NormalizeKey(key);
      if normalized !in index {
        return false;
      }
      var reference := index[normalized];
      index := Without(index, normalized);
      if reference.index >= slots.Length {
        return false;
      }
      var slot := slots[reference.index];
      if slot.generation != reference.generation {
        return false;
      }
      slots[reference.index] := slot.(entry := None);
      return slot.entry.Some?;
    }

    /** The number of records equals the number of indexed keys. */
    method Len() returns (count: nat)
      requires Valid()
      ensures count == |Contents(Value())|
    {
      hide NormalizeKey;
      count := 0;
      ghost var occupied: set<nat> := {};
      for i := 0 to slots.Length
        invariant count == |occupied|
        invariant forall j: nat :: j in occupied <==> j < i && slots[j].entry.Some?
      {
        if slots[i].entry.Some? {
          count := count + 1;
          occupied := occupied + {i};
        }
      }
      ContentsFitSlots(Value());
      assert occupied == OccupiedSet(slots[..]);
    }
  }

  lemma NoMatchYet(terms: seq<string>)
    ensures forall slots: seq<Slot> :: !AnyMatch(terms, slots[..0])
  {
  }

  lemma MatchSoFar(terms: seq<string>, slots: seq<Slot>, i: nat)
    requires i < |slots|
    ensures AnyMatch(terms, slots[..i + 1])
       <==> AnyMatch(terms, slots[..i]) || (slots[i].entry.Some? && Matches(terms, slots[i].entry.value) > 0)
  {
    hide Matches;
    assert slots[..i + 1] == slots[..i] + [slots[i]];
    if AnyMatch(terms, slots[..i]) {
      var j :| 0 <= j < i && slots[..i][j].entry.Some? && Matches(terms, slots[..i][j].entry.value) > 0;
      assert slots[..i + 1][j] == slots[..i][j];
    }
    if slots[i].entry.Some? && Matches(terms, slots[i].entry.value) > 0 {
      assert slots[..i + 1][i] == slots[i];
    }
  }
}
