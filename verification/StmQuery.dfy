/**
  Ranked queries over short-term memory (crates/tst-core/src/stm.rs): how
  candidates are scored and ordered, and what the limit cuts off.
 */
module StmQuery {
  import opened Wrappers
  import opened Memory
  import opened Sorting
  import opened StmModel

  // ---------- recency ----------

  const RECENCY_HALF_LIFE_MS: nat := 30 * 60 * 1000
  const RECENCY_BOOST_MAX: real := 4.0

  /** A boost by age that starts at the maximum, never grows with age and halves every half-life. */
  ghost predicate IsBoost(boost: nat -> real) {
    && boost(0) == RECENCY_BOOST_MAX
    && (forall a: nat :: 0.0 <= boost(a) <= RECENCY_BOOST_MAX)
    && (forall a: nat, b: nat :: a <= b ==> boost(b) <= boost(a))
    && (forall a: nat :: boost(a + RECENCY_HALF_LIFE_MS) == boost(a) / 2.0)
  }

  function StepBoost(age: nat): real {
    if age < RECENCY_HALF_LIFE_MS then RECENCY_BOOST_MAX else StepBoost(age - RECENCY_HALF_LIFE_MS) / 2.0
  }

  lemma {:induction false} StepBoostFalls(a: nat, b: nat)
    requires a <= b
    ensures 0.0 <= StepBoost(b) <= StepBoost(a) <= RECENCY_BOOST_MAX
  {
    if a >= RECENCY_HALF_LIFE_MS {
      StepBoostFalls(a - RECENCY_HALF_LIFE_MS, b - RECENCY_HALF_LIFE_MS);
    } else if b >= RECENCY_HALF_LIFE_MS {
      StepBoostFalls(0, b - RECENCY_HALF_LIFE_MS);
    }
  }

  lemma StepBoostIsBoost()
    ensures IsBoost(StepBoost)
  {
    forall a: nat, b: nat | a <= b ensures 0.0 <= StepBoost(b) <= StepBoost(a) <= RECENCY_BOOST_MAX {
      StepBoostFalls(a, b);
    }
    forall a: nat ensures StepBoost(a + RECENCY_HALF_LIFE_MS) == StepBoost(a) / 2.0 {
    }
    forall a: nat ensures 0.0 <= StepBoost(a) <= RECENCY_BOOST_MAX {
      StepBoostFalls(a, a);
    }
  }

  /** What a boost is, in numbers: four at first, halved every thirty minutes. */
  lemma BoostReads(boost: nat -> real, age: nat)
    requires IsBoost(boost)
    ensures boost(0) == 4.0 && boost(age + 1800000) == boost(age) / 2.0
  {
  }

  type Boost = boost: nat -> real | IsBoost(boost) witness (StepBoostIsBoost(); StepBoost)

  /** Some boost; nothing below depends on which one it is. */
  const RECENCY: Boost

  function Age(now: int, updatedMs: nat): nat {
    if now < updatedMs then 0 else now - updatedMs
  }

  // ---------- matching ----------

  function Contains(text: string, term: string): bool {
    term <= text || (text != "" && Contains(text[1..], term))
  }

  function SearchText(entry: MemoryRecord): string {
    entry.normalizedKey + " " + ToLower(entry.value)
  }

  function CountMatches(terms: seq<string>, text: string): (count: nat)
    ensures count <= |terms|
  {
    if terms == [] then 0 else (if Contains(text, terms[0]) then 1 else 0) + CountMatches(terms[1..], text)
  }

  function Terms(query: string): seq<string> {
    Words(NormalizeKey(query))
  }

  function Matches(terms: seq<string>, entry: MemoryRecord): nat {
    CountMatches(terms, SearchText(entry))
  }

  // ---------- ranking ----------

  /** A scored record and the slot it came from. */
  datatype Candidate = Candidate(relevance: real, record: MemoryRecord, slot: nat, matches: nat)

  function Relevance(matches: nat, entry: MemoryRecord, now: int): real {
    matches as real * 10.0 + entry.score + RECENCY(Age(now, entry.updatedMs))
  }

  /** The comparison of the sort: relevance, then the newer update. */
  predicate Outranks(a: Candidate, b: Candidate) {
    a.relevance > b.relevance || (a.relevance == b.relevance && a.record.updatedMs > b.record.updatedMs)
  }

  /** The same with ties broken by slot, which is what a stable sort does. */
  predicate GoesFirst(a: Candidate, b: Candidate) {
    Outranks(a, b) || (!Outranks(b, a) && a.slot < b.slot)
  }

  predicate Selected(terms: seq<string>, slot: Slot) {
    slot.entry.Some? && (Matches(terms, slot.entry.value) > 0 || slot.entry.value.pinned)
  }

  function Scored(terms: seq<string>, entry: MemoryRecord, slot: nat, now: int): Candidate {
    Candidate(Relevance(Matches(terms, entry), entry, now), Accessed(entry), slot, Matches(terms, entry))
  }

  /** The candidates among the first `count` slots, in slot order. */
  function Candidates(terms: seq<string>, slots: seq<Slot>, count: nat, now: int): seq<Candidate>
    requires count <= |slots|
  {
    if count == 0 then []
    else
      var before := Candidates(terms, slots, count - 1, now);
      var slot := slots[count - 1];
      if Selected(terms, slot) then before + [Scored(terms, slot.entry.value, count - 1, now)] else before
  }

  /** A query bumps the access count of every candidate, returned or not. */
  function Bumped(terms: seq<string>, slot: Slot): Slot {
    if Selected(terms, slot) then slot.(entry := Some(Accessed(slot.entry.value))) else slot
  }

  function BumpAll(terms: seq<string>, slots: seq<Slot>): (r: seq<Slot>)
    ensures |r| == |slots|
  {
    seq(|slots|, i requires 0 <= i < |slots| => Bumped(terms, slots[i]))
  }

  predicate AnyMatch(terms: seq<string>, slots: seq<Slot>) {
    exists i :: 0 <= i < |slots| && slots[i].entry.Some? && Matches(terms, slots[i].entry.value) > 0
  }

  function Records(candidates: seq<Candidate>): (records: seq<MemoryRecord>)
    ensures |records| == |candidates|
  {
    seq(|candidates|, i requires 0 <= i < |candidates| => candidates[i].record)
  }

  function Ranking(terms: seq<string>, slots: seq<Slot>, now: int): seq<Candidate> {
    StableSort(Outranks, Candidates(terms, slots, |slots|, now))
  }

  function QueryResult(query: string, slots: seq<Slot>, limit: nat, now: int): seq<MemoryRecord> {
    Records(Take(Ranking(Terms(query), slots, now), limit))
  }

  // ---------- what the ranking promises ----------

  lemma GoesFirstIsOrder()
    ensures IsStrictWeakOrder(GoesFirst)
  {
  }

  ghost predicate IsScored(terms: seq<string>, slots: seq<Slot>, now: int, c: Candidate) {
    && c.slot < |slots| && Selected(terms, slots[c.slot])
    && c == Scored(terms, slots[c.slot].entry.value, c.slot, now)
  }

  lemma {:induction false} CandidateSlots(terms: seq<string>, slots: seq<Slot>, count: nat, now: int)
    requires count <= |slots|
    ensures var cs := Candidates(terms, slots, count, now);
            && (forall c :: c in cs <==> c.slot < count && IsScored(terms, slots, now, c))
            && (forall i, j :: 0 <= i < j < |cs| ==> cs[i].slot < cs[j].slot)
  {
    if count > 0 {
      CandidateSlots(terms, slots, count - 1, now);
    }
  }

  /** The ranking arranges exactly the candidates by relevance, then update, then slot. */
  lemma RankingIsArrangement(terms: seq<string>, slots: seq<Slot>, now: int)
    ensures var ranking := Ranking(terms, slots, now);
            && StrictlyOrdered(GoesFirst, ranking)
            && (forall c :: c in ranking <==> IsScored(terms, slots, now, c))
  {
    var cs := Candidates(terms, slots, |slots|, now);
    CandidateSlots(terms, slots, |slots|, now);
    GoesFirstIsOrder();
    SortOrdered(GoesFirst, Outranks, cs);
    forall c ensures c in Ranking(terms, slots, now) <==> c in cs {
      SortedMember(Outranks, cs, c);
    }
  }

  /** No omitted candidate goes before a returned one. */
  lemma TopOfRanking(terms: seq<string>, slots: seq<Slot>, limit: nat, now: int, c: Candidate)
    requires c in Ranking(terms, slots, now) && c !in Take(Ranking(terms, slots, now), limit)
    ensures |Take(Ranking(terms, slots, now), limit)| == limit
    ensures forall r :: r in Take(Ranking(terms, slots, now), limit) ==> GoesFirst(r, c) && !Outranks(c, r)
  {
    var ranking := Ranking(terms, slots, now);
    RankingIsArrangement(terms, slots, now);
    var j :| 0 <= j < |ranking| && ranking[j] == c;
    TakeMembers(ranking, limit);
    forall r | r in Take(ranking, limit) ensures GoesFirst(r, c) && !Outranks(c, r) {
      var i :| 0 <= i < limit && ranking[i] == r;
      assert GoesFirst(ranking[i], ranking[j]);
    }
  }

  /** For scores in the unit interval the number of matched terms decides first. */
  lemma MatchesDominate(terms: seq<string>, now: int, left: MemoryRecord, i: nat, right: MemoryRecord, j: nat)
    requires 0.0 <= left.score <= 1.0 && 0.0 <= right.score <= 1.0
    ensures Matches(terms, left) > Matches(terms, right) ==>
              Outranks(Scored(terms, left, i, now), Scored(terms, right, j, now))
  {
    assert Matches(terms, left) > Matches(terms, right) ==>
        Matches(terms, left) as real >= Matches(terms, right) as real + 1.0;
    assert 0.0 <= RECENCY(Age(now, left.updatedMs)) && RECENCY(Age(now, right.updatedMs)) <= 4.0;
  }

  /** Of two records that match equally and score the same, the fresher one outranks the other. */
  lemma FresherOutranks(terms: seq<string>, now: int, recent: MemoryRecord, i: nat, past: MemoryRecord, j: nat)
    requires Matches(terms, recent) == Matches(terms, past) && recent.score == past.score
    requires recent.updatedMs > past.updatedMs
    ensures Outranks(Scored(terms, recent, i, now), Scored(terms, past, j, now))
  {
    assert Age(now, recent.updatedMs) <= Age(now, past.updatedMs);
    assert RECENCY(Age(now, past.updatedMs)) <= RECENCY(Age(now, recent.updatedMs));
  }

  /** Of two records that match equally and are equally fresh, the one with the higher score outranks the other. */
  lemma StrongerOutranks(terms: seq<string>, now: int, strong: MemoryRecord, i: nat, weak: MemoryRecord, j: nat)
    requires Matches(terms, strong) == Matches(terms, weak) && strong.updatedMs == weak.updatedMs
    requires strong.score > weak.score
    ensures Outranks(Scored(terms, strong, i, now), Scored(terms, weak, j, now))
  {
  }

  /** A query returns its candidates with the most matched terms: no omitted one matched more than a returned one. */
  lemma QueryPrefersMatches(terms: seq<string>, slots: seq<Slot>, limit: nat, now: int, c: Candidate)
    requires ScoresInUnit(slots)
    requires c in Ranking(terms, slots, now) && c !in Take(Ranking(terms, slots, now), limit)
    ensures forall r :: r in Take(Ranking(terms, slots, now), limit) ==> c.matches <= r.matches
  {
    TopOfRanking(terms, slots, limit, now, c);
    RankingIsArrangement(terms, slots, now);
    var ranking := Ranking(terms, slots, now);
    forall r | r in Take(ranking, limit) ensures c.matches <= r.matches {
      assert r in ranking;
      MatchesDominate(terms, now, slots[c.slot].entry.value, c.slot, slots[r.slot].entry.value, r.slot);
    }
  }

  /** After some half-lives the boost is as small as one likes, but never zero. */
  lemma {:induction false} BoostAfterHalfLives(n: nat)
    ensures 0.0 < RECENCY(n * RECENCY_HALF_LIFE_MS)
    ensures n as real * RECENCY(n * RECENCY_HALF_LIFE_MS) <= RECENCY_BOOST_MAX
  {
    if n > 0 {
      BoostAfterHalfLives(n - 1);
      var before := RECENCY((n - 1) * RECENCY_HALF_LIFE_MS);
      assert n * RECENCY_HALF_LIFE_MS == (n - 1) * RECENCY_HALF_LIFE_MS + RECENCY_HALF_LIFE_MS;
      if n > 1 {
        HalfProduct(n, before);
      }
    }
  }

  lemma HalfProduct(n: nat, x: real)
    requires n > 1 && 0.0 < x
    ensures n as real * (x / 2.0) <= (n - 1) as real * x
  {
    assert 0.0 <= (n as real - 2.0) * x;
  }

  lemma BoostIsPositive(age: nat)
    ensures RECENCY(age) > 0.0
  {
    BoostAfterHalfLives(age);
    assert age <= age * RECENCY_HALF_LIFE_MS;
  }

  ghost predicate AlwaysOutranks(terms: seq<string>, left: MemoryRecord, right: MemoryRecord) {
    forall now: int, leftMs: nat, rightMs: nat ::
      Outranks(Scored(terms, left.(updatedMs := leftMs), 0, now), Scored(terms, right.(updatedMs := rightMs), 1, now))
  }

  /**
    One record outranks another at all update times and whenever the query runs
    exactly if the other's score is ahead by at most ten for each term that the
    first matches more, less the largest boost.
   */
  lemma MatchesDominateIff(terms: seq<string>, left: MemoryRecord, right: MemoryRecord)
    ensures AlwaysOutranks(terms, left, right)
       <==> right.score - left.score
            <= 10.0 * (Matches(terms, left) - Matches(terms, right)) as real - RECENCY_BOOST_MAX
  {
    hide Matches;
    var lead := 10.0 * (Matches(terms, left) - Matches(terms, right)) as real - (right.score - left.score);
    if lead >= RECENCY_BOOST_MAX {
      forall now: int, leftMs: nat, rightMs: nat
        ensures Outranks(Scored(terms, left.(updatedMs := leftMs), 0, now),
                         Scored(terms, right.(updatedMs := rightMs), 1, now))
      {
        SameMatches(terms, left, leftMs);
        SameMatches(terms, right, rightMs);
        BoostIsPositive(Age(now, leftMs));
      }
    } else {
      var n := HalfLivesBelow(RECENCY_BOOST_MAX - lead);
      var now := n * RECENCY_HALF_LIFE_MS;
      SameMatches(terms, left, 0);
      SameMatches(terms, right, now);
      assert !Outranks(Scored(terms, left.(updatedMs := 0), 0, now), Scored(terms, right.(updatedMs := now), 1, now));
    }
  }

  lemma SameMatches(terms: seq<string>, entry: MemoryRecord, updatedMs: nat)
    ensures Matches(terms, entry.(updatedMs := updatedMs)) == Matches(terms, entry)
  {
  }

  lemma HalfLivesBelow(gap: real) returns (n: nat)
    requires gap > 0.0
    ensures RECENCY(n * RECENCY_HALF_LIFE_MS) < gap
  {
    n := (RECENCY_BOOST_MAX / gap).Floor + 1;
    BoostAfterHalfLives(n);
    QuotientBelow(RECENCY_BOOST_MAX, gap, n as real);
    if RECENCY(n * RECENCY_HALF_LIFE_MS) >= gap {
      ProductMonotone(gap, RECENCY(n * RECENCY_HALF_LIFE_MS), n as real);
    }
  }

  lemma QuotientBelow(x: real, y: real, n: real)
    requires 0.0 < y && x / y < n
    ensures x < y * n
  {
    assert x / y * y == x;
    assert 0.0 < (n - x / y) * y;
  }

  /** A score of 15 outweighs one match, whatever the recency. */
  lemma ScoreCanOutweighMatch(terms: seq<string>, now: int, matched: MemoryRecord, pinned: MemoryRecord)
    requires Matches(terms, matched) == 1 && Matches(terms, pinned) == 0
    requires matched.score == 0.0 && pinned.score >= 15.0
    ensures Outranks(Scored(terms, pinned, 0, now), Scored(terms, matched, 1, now))
  {
    assert RECENCY(Age(now, matched.updatedMs)) <= 4.0;
  }

  // ---------- what a match is ----------

  /** The term stands somewhere in the text. */
  ghost predicate Occurs(text: string, term: string) {
    exists at: nat :: OccursAt(text, term, at)
  }

  ghost predicate OccursAt(text: string, term: string, at: nat) {
    at + |term| <= |text| && text[at..at + |term|] == term
  }

  lemma {:induction false} ContainsIff(text: string, term: string)
    ensures Contains(text, term) <==> Occurs(text, term)
  {
    if term <= text {
      assert OccursAt(text, term, 0);
    } else if text != "" {
      var rest := text[1..];
      ContainsIff(rest, term);
      if at: nat :| OccursAt(rest, term, at) {
        assert OccursAt(text, term, at + 1);
      }
      if at: nat :| OccursAt(text, term, at) {
        assert at > 0 && OccursAt(rest, term, at - 1);
      }
    }
  }

  /** The term stands in the key or in the lower-cased value. */
  ghost predicate OccursIn(entry: MemoryRecord, term: string) {
    Occurs(entry.normalizedKey, term) || Occurs(ToLower(entry.value), term)
  }

  lemma OccursInPart(a: string, text: string, b: string, term: string)
    requires text == a + " " + b
    ensures Occurs(a, term) || Occurs(b, term) ==> Occurs(text, term)
  {
    if at: nat :| OccursAt(a, term, at) {
      assert OccursAt(text, term, at);
    }
    if at: nat :| OccursAt(b, term, at) {
      assert OccursAt(text, term, at + |a| + 1);
    }
  }

  lemma WordInOnePart(a: string, text: string, b: string, term: string)
    requires text == a + " " + b
    ensures Occurs(text, term) ==> ' ' in term || Occurs(a, term) || Occurs(b, term)
  {
    if at: nat :| OccursAt(text, term, at) {
      if at + |term| <= |a| {
        assert OccursAt(a, term, at);
      } else if at > |a| {
        assert OccursAt(b, term, at - |a| - 1);
      } else {
        assert text[|a|] == ' ' && term[|a| - at] == text[at..at + |term|][|a| - at];
      }
    }
  }

  /** A word is found in the searched text exactly if it is found in the key or the value: it cannot span both. */
  lemma OccursInSearchText(entry: MemoryRecord, term: string)
    requires IsWord(term)
    ensures Occurs(SearchText(entry), term) <==> OccursIn(entry, term)
  {
    hide Occurs, ToLower;
    assert IsWhitespace(' ');
    OccursInPart(entry.normalizedKey, SearchText(entry), ToLower(entry.value), term);
    WordInOnePart(entry.normalizedKey, SearchText(entry), ToLower(entry.value), term);
  }

  ghost function Matching(terms: seq<string>, entry: MemoryRecord): set<nat> {
    set i: nat | i < |terms| && OccursIn(entry, terms[i])
  }

  /** Each term that occurs in key or value counts once. */
  lemma {:induction false} MatchesCountTerms(terms: seq<string>, entry: MemoryRecord)
    requires forall i :: 0 <= i < |terms| ==> IsWord(terms[i])
    ensures Matches(terms, entry) == |Matching(terms, entry)|
  {
    hide Contains, SearchText, OccursIn, Occurs;
    if terms == [] {
      assert Matching(terms, entry) == {};
    } else {
      var rest := terms[1..];
      MatchesCountTerms(rest, entry);
      ContainsIff(SearchText(entry), terms[0]);
      OccursInSearchText(entry, terms[0]);
      ShiftedSize(Matching(rest, entry));
      var first := if OccursIn(entry, terms[0]) then {0} else {};
      assert Matching(terms, entry) == Shifted(Matching(rest, entry)) + first;
    }
  }

  ghost function Shifted(s: set<nat>): (r: set<nat>)
    ensures forall i: nat :: i in r <==> i > 0 && i - 1 in s
  {
    var r := set i | i in s :: i + 1;
    assert forall i: nat :: i > 0 && i - 1 in s ==> i in r by {
      forall i: nat | i > 0 && i - 1 in s ensures i in r {
        var j := i - 1;
        assert j in s && j + 1 == i;
      }
    }
    r
  }

  lemma {:induction false} ShiftedSize(s: set<nat>)
    ensures |Shifted(s)| == |s|
    decreases |s|
  {
    if s == {} {
      assert Shifted(s) == {};
    } else {
      var x :| x in s;
      ShiftedSize(s - {x});
      assert Shifted(s) == Shifted(s - {x}) + {x + 1};
    }
  }

  lemma TermsAreWords(query: string)
    ensures Terms(query) == LowerAll(Words(query))
    ensures forall i :: 0 <= i < |Terms(query)| ==> IsWord(Terms(query)[i])
  {
    NormalTerms(query);
    LowerKeepsWords(Words(query));
  }

  ghost predicate AnyOccurs(terms: seq<string>, entry: MemoryRecord) {
    exists i :: 0 <= i < |terms| && OccursIn(entry, terms[i])
  }

  /** A record answers a query if it is pinned or a term occurs in it. */
  ghost predicate Qualifies(terms: seq<string>, slot: Slot) {
    slot.entry.Some? && (slot.entry.value.pinned || AnyOccurs(terms, slot.entry.value))
  }

  lemma SelectedIff(terms: seq<string>, slot: Slot)
    requires forall i :: 0 <= i < |terms| ==> IsWord(terms[i])
    ensures Selected(terms, slot) <==> Qualifies(terms, slot)
    ensures slot.entry.Some? ==> (Matches(terms, slot.entry.value) > 0 <==> AnyOccurs(terms, slot.entry.value))
  {
    hide OccursIn, Matches;
    if slot.entry.Some? {
      var entry := slot.entry.value;
      MatchesCountTerms(terms, entry);
      if i :| 0 <= i < |terms| && OccursIn(entry, terms[i]) {
        assert i in Matching(terms, entry);
      }
      if |Matching(terms, entry)| > 0 {
        var i :| i in Matching(terms, entry);
      }
    }
  }

  // ---------- what a query returns ----------

  /** Ten for each matching term, the score, and the boost by age. */
  ghost function Weight(terms: seq<string>, entry: MemoryRecord, now: int): real {
    |Matching(terms, entry)| as real * 10.0 + entry.score
    + RECENCY(if now <= entry.updatedMs then 0 else now - entry.updatedMs)
  }

  /**
    The record in slot `i` comes before the one in slot `j`: more weight, then
    updated later, then the earlier slot.
   */
  ghost predicate ComesFirst(terms: seq<string>, slots: seq<Slot>, now: int, i: nat, j: nat)
    requires i < |slots| && slots[i].entry.Some? && j < |slots| && slots[j].entry.Some?
  {
    var a, b := slots[i].entry.value, slots[j].entry.value;
    var wa, wb := Weight(terms, a, now), Weight(terms, b, now);
    wa > wb || (wa == wb && (a.updatedMs > b.updatedMs || (a.updatedMs == b.updatedMs && i < j)))
  }

  ghost function WithAccess(entry: MemoryRecord): MemoryRecord {
    entry.(accessCount := entry.accessCount + 1)
  }

  /**
    The result lists the records of the picked slots, each with one more access,
    best first; a record that answers the query is missing only if the limit is
    reached, and then every picked one comes before it.
   */
  ghost predicate PicksBest(result: seq<MemoryRecord>, picked: seq<nat>, terms: seq<string>, slots: seq<Slot>,
      limit: nat, now: int)
  {
    && |result| == |picked| <= limit
    && (forall i :: 0 <= i < |picked| ==> picked[i] < |slots| && Qualifies(terms, slots[picked[i]]))
    && (forall i :: 0 <= i < |picked| ==>
          result[i] == WithAccess(slots[picked[i]].entry.value))
    && (forall i, j :: 0 <= i < j < |picked| ==> ComesFirst(terms, slots, now, picked[i], picked[j]))
    && (forall s: nat :: s < |slots| && Qualifies(terms, slots[s]) && s !in picked ==>
          |picked| == limit && forall i :: 0 <= i < |picked| ==> ComesFirst(terms, slots, now, picked[i], s))
  }

  lemma WeightIsRelevance(terms: seq<string>, slots: seq<Slot>, now: int, i: nat, j: nat)
    requires forall k :: 0 <= k < |terms| ==> IsWord(terms[k])
    requires i < |slots| && slots[i].entry.Some? && j < |slots| && slots[j].entry.Some?
    ensures ComesFirst(terms, slots, now, i, j)
       <==> GoesFirst(Scored(terms, slots[i].entry.value, i, now), Scored(terms, slots[j].entry.value, j, now))
  {
    hide Matches, Matching;
    MatchesCountTerms(terms, slots[i].entry.value);
    MatchesCountTerms(terms, slots[j].entry.value);
  }

  /** What the ranking is, read off its slots. */
  lemma RankedSlots(terms: seq<string>, slots: seq<Slot>, now: int)
    requires forall k :: 0 <= k < |terms| ==> IsWord(terms[k])
    ensures var ranking := Ranking(terms, slots, now);
            && (forall i :: 0 <= i < |ranking| ==>
                  && ranking[i].slot < |slots| && Qualifies(terms, slots[ranking[i].slot])
                  && ranking[i].record == WithAccess(slots[ranking[i].slot].entry.value))
            && (forall i, j :: 0 <= i < j < |ranking| ==>
                  ComesFirst(terms, slots, now, ranking[i].slot, ranking[j].slot))
            && (forall s: nat :: s < |slots| && Qualifies(terms, slots[s]) ==>
                  exists i :: 0 <= i < |ranking| && ranking[i].slot == s)
  {
    hide Ranking, ComesFirst, GoesFirst, Matches, OccursIn;
    RankingIsArrangement(terms, slots, now);
    var ranking := Ranking(terms, slots, now);
    forall s: nat | s < |slots| ensures Selected(terms, slots[s]) <==> Qualifies(terms, slots[s]) {
      SelectedIff(terms, slots[s]);
    }
    forall i | 0 <= i < |ranking|
      ensures IsScored(terms, slots, now, ranking[i]) && Qualifies(terms, slots[ranking[i].slot])
    {
      assert ranking[i] in ranking;
    }
    forall i, j | 0 <= i < j < |ranking| ensures ComesFirst(terms, slots, now, ranking[i].slot, ranking[j].slot) {
      WeightIsRelevance(terms, slots, now, ranking[i].slot, ranking[j].slot);
    }
    forall s: nat | s < |slots| && Qualifies(terms, slots[s])
      ensures exists i :: 0 <= i < |ranking| && ranking[i].slot == s
    {
      var c := Scored(terms, slots[s].entry.value, s, now);
      assert IsScored(terms, slots, now, c) && c in ranking;
    }
  }

  /** A query returns the best of the records that answer it. */
  lemma QueryPicksBest(query: string, slots: seq<Slot>, limit: nat, now: int) returns (picked: seq<nat>)
    ensures PicksBest(QueryResult(query, slots, limit, now), picked, LowerAll(Words(query)), slots, limit, now)
  {
    hide Ranking, Words, OccursIn, ComesFirst, Terms, LowerAll;
    var terms := Terms(query);
    TermsAreWords(query);
    RankedSlots(terms, slots, now);
    var ranking := Ranking(terms, slots, now);
    var top := Take(ranking, limit);
    picked := seq(|top|, i requires 0 <= i < |top| => top[i].slot);
    assert forall i :: 0 <= i < |top| ==> top[i] == ranking[i] && picked[i] == ranking[i].slot;
    forall s: nat | s < |slots| && Qualifies(terms, slots[s]) && s !in picked
      ensures |picked| == limit && forall i :: 0 <= i < |picked| ==> ComesFirst(terms, slots, now, picked[i], s)
    {
      var j :| 0 <= j < |ranking| && ranking[j].slot == s;
      assert j >= |picked|;
    }
  }

  /** For scores in the unit interval no record that a query leaves out matches more terms than one it returns. */
  lemma ResultPrefersMatches(result: seq<MemoryRecord>, picked: seq<nat>, terms: seq<string>, slots: seq<Slot>,
      limit: nat, now: int, omitted: nat)
    requires ScoresInUnit(slots) && PicksBest(result, picked, terms, slots, limit, now)
    requires omitted < |slots| && Qualifies(terms, slots[omitted]) && omitted !in picked
    ensures |result| == limit
    ensures forall i :: 0 <= i < |picked| ==>
              |Matching(terms, slots[omitted].entry.value)| <= |Matching(terms, slots[picked[i]].entry.value)|
  {
    hide Matching;
    forall i | 0 <= i < |picked|
      ensures |Matching(terms, slots[omitted].entry.value)| <= |Matching(terms, slots[picked[i]].entry.value)|
    {
      assert ComesFirst(terms, slots, now, picked[i], omitted);
      BoostInRange(now, slots[picked[i]].entry.value.updatedMs);
      BoostInRange(now, slots[omitted].entry.value.updatedMs);
    }
  }

  lemma BoostInRange(now: int, updatedMs: nat)
    ensures 0.0 <= RECENCY(if now <= updatedMs then 0 else now - updatedMs) <= 4.0
  {
  }

  /** A query counts one access of every record that answers it, returned or not, and changes nothing else. */
  lemma QueryCountsAccesses(terms: seq<string>, slots: seq<Slot>, i: nat)
    requires i < |slots| && forall k :: 0 <= k < |terms| ==> IsWord(terms[k])
    ensures var slot, later := slots[i], BumpAll(terms, slots)[i];
            && (!Qualifies(terms, slot) ==> later == slot)
            && (Qualifies(terms, slot) ==>
                  && later.generation == slot.generation && later.entry.Some?
                  && later.entry.value == WithAccess(slot.entry.value))
  {
    hide Selected, Qualifies;
    SelectedIff(terms, slots[i]);
  }

  /** One of the terms occurs in some record; pins alone do not count. */
  ghost predicate Understood(terms: seq<string>, slots: seq<Slot>) {
    exists s :: 0 <= s < |slots| && slots[s].entry.Some? && AnyOccurs(terms, slots[s].entry.value)
  }

  lemma AnyMatchIff(terms: seq<string>, slots: seq<Slot>)
    requires forall k :: 0 <= k < |terms| ==> IsWord(terms[k])
    ensures AnyMatch(terms, slots) <==> Understood(terms, slots)
  {
    hide Matches, OccursIn;
    forall s | 0 <= s < |slots| && slots[s].entry.Some?
      ensures Matches(terms, slots[s].entry.value) > 0 <==> AnyOccurs(terms, slots[s].entry.value)
    {
      SelectedIff(terms, slots[s]);
    }
  }

  // ---------- recent fallback ----------

  predicate Newer(a: MemoryRecord, b: MemoryRecord) {
    a.updatedMs > b.updatedMs
  }

  function EntriesOf(slots: seq<Slot>): seq<MemoryRecord> {
    if slots == [] then []
    else (if slots[0].entry.Some? then [slots[0].entry.value] else []) + EntriesOf(slots[1..])
  }

  function NotIn(entries: seq<MemoryRecord>, ids: set<string>): seq<MemoryRecord> {
    if entries == [] then []
    else (if entries[0].id in ids then [] else [entries[0]]) + NotIn(entries[1..], ids)
  }

  function IdsOf(records: seq<MemoryRecord>): set<string> {
    set r | r in records :: r.id
  }

  lemma IdsOfReads(records: seq<MemoryRecord>, id: string)
    ensures id in IdsOf(records) <==> exists i :: 0 <= i < |records| && records[i].id == id
  {
    if i :| 0 <= i < |records| && records[i].id == id {
      assert records[i] in records;
    }
  }

  function Recent(slots: seq<Slot>, ids: set<string>): seq<MemoryRecord> {
    StableSort(Newer, NotIn(EntriesOf(slots), ids))
  }

  /** `query_with_recent`, over the slots as they were before the query bumped them. */
  function PaddedResult(query: string, slots: seq<Slot>, limit: nat, fallback: nat, now: int): seq<MemoryRecord> {
    var terms := Terms(query);
    var result := QueryResult(query, slots, limit, now);
    if AnyMatch(terms, slots) || fallback == 0 || |result| >= limit then result
    else result + Take(Recent(BumpAll(terms, slots), IdsOf(result)), MinNat(fallback, limit - |result|))
  }

  lemma {:induction false} EntriesMembers(slots: seq<Slot>, r: MemoryRecord)
    ensures r in EntriesOf(slots) <==> exists i :: 0 <= i < |slots| && slots[i].entry == Some(r)
  {
    if slots != [] {
      EntriesMembers(slots[1..], r);
      if i :| 0 <= i < |slots| && slots[i].entry == Some(r) {
        assert i > 0 ==> slots[1..][i - 1].entry == Some(r);
      }
      if j :| 0 <= j < |slots[1..]| && slots[1..][j].entry == Some(r) {
        assert slots[j + 1].entry == Some(r);
      }
    }
  }

  /** The entries of a row of slots, one slot after the other. */
  lemma {:induction false} EntriesConcat(a: seq<Slot>, b: seq<Slot>)
    ensures EntriesOf(a + b) == EntriesOf(a) + EntriesOf(b)
  {
    if a == [] {
      assert a + b == b;
    } else {
      var first := if a[0].entry.Some? then [a[0].entry.value] else [];
      EntriesConcat(a[1..], b);
      assert (a + b)[0] == a[0] && (a + b)[1..] == a[1..] + b;
      assert EntriesOf(a + b) == first + EntriesOf(a[1..] + b);
      assert EntriesOf(a) == first + EntriesOf(a[1..]);
    }
  }

  lemma EntriesOfOne(slot: Slot)
    ensures EntriesOf([slot]) == if slot.entry.Some? then [slot.entry.value] else []
  {
    assert [slot][1..] == [];
  }

  lemma {:induction false} NotInMembers(entries: seq<MemoryRecord>, ids: set<string>, r: MemoryRecord)
    ensures r in NotIn(entries, ids) <==> r in entries && r.id !in ids
  {
    if entries != [] {
      NotInMembers(entries[1..], ids, r);
      assert entries == [entries[0]] + entries[1..];
    }
  }

  lemma {:induction false} NewestFirst(entries: seq<MemoryRecord>)
    ensures forall i, j :: 0 <= i < j < |StableSort(Newer, entries)| ==>
                             !Newer(StableSort(Newer, entries)[j], StableSort(Newer, entries)[i])
  {
    if entries != [] {
      NewestFirst(entries[1..]);
      InsertNewest(entries[0], StableSort(Newer, entries[1..]));
    }
  }

  lemma {:induction false} InsertNewest(x: MemoryRecord, ys: seq<MemoryRecord>)
    requires forall i, j :: 0 <= i < j < |ys| ==> !Newer(ys[j], ys[i])
    ensures forall i, j :: 0 <= i < j <= |ys| ==> !Newer(Insert(Newer, x, ys)[j], Insert(Newer, x, ys)[i])
  {
    if ys != [] && Newer(ys[0], x) {
      var rest := Insert(Newer, x, ys[1..]);
      InsertNewest(x, ys[1..]);
      forall j | 0 <= j < |rest| ensures !Newer(rest[j], ys[0]) {
        assert rest[j] in rest;
        InsertedMember(Newer, x, ys[1..], rest[j]);
        if rest[j] in ys[1..] {
          var i :| 0 <= i < |ys[1..]| && ys[1..][i] == rest[j];
          assert ys[i + 1] == rest[j];
        }
      }
    }
  }

  lemma {:induction false} NotInCounts(entries: seq<MemoryRecord>, ids: set<string>, r: MemoryRecord)
    ensures multiset(NotIn(entries, ids))[r] == if r.id in ids then 0 else multiset(entries)[r]
  {
    if entries != [] {
      NotInCounts(entries[1..], ids, r);
      assert entries == [entries[0]] + entries[1..];
      assert NotIn(entries, ids) == (if entries[0].id in ids then [] else [entries[0]]) + NotIn(entries[1..], ids);
    }
  }

  /** The recent records arrange, newest first, exactly the entries with other ids, each as often as it is stored. */
  lemma RecentIsArrangement(slots: seq<Slot>, ids: set<string>)
    ensures forall i, j :: 0 <= i < j < |Recent(slots, ids)| ==> !Newer(Recent(slots, ids)[j], Recent(slots, ids)[i])
    ensures forall r :: multiset(Recent(slots, ids))[r] == if r.id in ids then 0 else multiset(EntriesOf(slots))[r]
  {
    NewestFirst(NotIn(EntriesOf(slots), ids));
    SortKeepsElements(Newer, NotIn(EntriesOf(slots), ids));
    forall r ensures multiset(Recent(slots, ids))[r] == if r.id in ids then 0 else multiset(EntriesOf(slots))[r] {
      NotInCounts(EntriesOf(slots), ids, r);
    }
  }

  /**
    The first of the recent records, up to a budget: none is left out that is newer,
    and none at all within the budget.
   */
  lemma TakeOfRecent(recent: seq<MemoryRecord>, budget: nat)
    requires forall i, j :: 0 <= i < j < |recent| ==> !Newer(recent[j], recent[i])
    ensures var added := Take(recent, budget);
            && multiset(added) <= multiset(recent)
            && (forall i, j :: 0 <= i < j < |added| ==> !Newer(added[j], added[i]))
            && (|added| < budget ==> added == recent)
            && (forall r, omitted :: r in added && omitted in multiset(recent) - multiset(added) ==> !Newer(omitted, r))
  {
    var added := Take(recent, budget);
    assert recent == added + recent[|added|..];
    forall r, omitted | r in added && omitted in multiset(recent) - multiset(added) ensures !Newer(omitted, r) {
      assert omitted in multiset(recent[|added|..]);
      var i :| 0 <= i < |added| && added[i] == r;
      var j :| 0 <= j < |recent[|added|..]| && recent[|added|..][j] == omitted;
      assert recent[i] == r && recent[|added| + j] == omitted;
    }
  }

  /**
    What `query_with_recent` adds to a result: the newest of the entries it lacks,
    newest first, as many as allowed.
   */
  ghost predicate PadsWithNewest(added: seq<MemoryRecord>, entries: seq<MemoryRecord>, ids: set<string>, budget: nat) {
    && |added| <= budget
    && multiset(added) <= multiset(entries)
    && (forall r :: r in added ==> r.id !in ids)
    && (forall i, j :: 0 <= i < j < |added| ==> added[i].updatedMs >= added[j].updatedMs)
    && (forall omitted :: omitted in multiset(entries) - multiset(added) && omitted.id !in ids ==>
          |added| == budget && forall r :: r in added ==> r.updatedMs >= omitted.updatedMs)
  }

  /**
    The padded result is the plain one whenever a term matched anything. Otherwise
    it goes on with the stored records that the result lacks, newest first and
    each as often as it is stored; one is left out only when the limit or the
    fallback is used up, and then none of those added is older.
   */
  lemma PaddingIsNewest(query: string, slots: seq<Slot>, limit: nat, fallback: nat, now: int)
    ensures var result := QueryResult(query, slots, limit, now);
            var padded := PaddedResult(query, slots, limit, fallback, now);
            && |padded| <= limit && result <= padded
            && (AnyMatch(Terms(query), slots) ==> padded == result)
            && (!AnyMatch(Terms(query), slots) ==>
                  PadsWithNewest(padded[|result|..], EntriesOf(BumpAll(Terms(query), slots)), IdsOf(result),
                                 MinNat(fallback, limit - |result|)))
  {
    hide EntriesOf, Ranking;
    var terms, result := Terms(query), QueryResult(query, slots, limit, now);
    if !AnyMatch(terms, slots) {
      var padded := PaddedResult(query, slots, limit, fallback, now);
      var rest, ids, budget := BumpAll(terms, slots), IdsOf(result), MinNat(fallback, limit - |result|);
      assert padded[|result|..] == Take(Recent(rest, ids), budget);
      NewestArePadding(rest, ids, budget);
    }
  }

  lemma NewestArePadding(slots: seq<Slot>, ids: set<string>, budget: nat)
    ensures PadsWithNewest(Take(Recent(slots, ids), budget), EntriesOf(slots), ids, budget)
  {
    RecentIsArrangement(slots, ids);
    hide EntriesOf, Recent;
    var recent := Recent(slots, ids);
    TakeOfRecent(recent, budget);
    AddedAreEligible(recent, Take(recent, budget), EntriesOf(slots), ids);
    forall r, omitted | r in Take(recent, budget) && omitted in multiset(recent) - multiset(Take(recent, budget))
      ensures r.updatedMs >= omitted.updatedMs
    {
      assert !Newer(omitted, r);
    }
  }

  lemma AddedAreEligible(recent: seq<MemoryRecord>, added: seq<MemoryRecord>, entries: seq<MemoryRecord>,
                         ids: set<string>)
    requires multiset(added) <= multiset(recent)
    requires forall r :: multiset(recent)[r] == if r.id in ids then 0 else multiset(entries)[r]
    ensures multiset(added) <= multiset(entries)
    ensures forall r :: r in added ==> r.id !in ids
    ensures forall r :: r in multiset(entries) - multiset(added) && r.id !in ids ==>
              r in multiset(recent) - multiset(added)
  {
    forall r | r in added ensures r.id !in ids {
      assert multiset(added)[r] > 0;
    }
  }
}
