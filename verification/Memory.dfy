/**
  The memory record and the normal form of its key (crates/tst-core/src/memory.rs).
  Every index in the store, the trie and the short-term memory is keyed by the
  normal form, and the trie normalises a key that the store has normalised
  already, so what everything else leans on is that normalising is idempotent.
 */
module Memory {
  import opened Wrappers

  datatype MemoryKind = TokenStatistics | ConceptAnchor | StructurePattern | BehavioralClaim | Preference

  datatype MemoryScope = SessionScope | ProjectScope | GlobalScope

  datatype Provenance = ExplicitUser | Verifier | ModelCandidate | Tool

  datatype EvidenceKind =
    | UserPreference
    | AstHash
    | ContentHash
    | CommandSuccess
    | IndependentReinforcement
    | SecondaryModel

  datatype Evidence = Evidence(
    kind: EvidenceKind,
    reference: string,
    success: bool,
    timestampMs: nat,
    contentHash: Option<string>
  )

  datatype MemoryRecord = MemoryRecord(
    id: string,
    key: string,
    normalizedKey: string,
    value: string,
    kind: MemoryKind,
    scope: MemoryScope,
    provenance: Provenance,
    score: real,
    pinned: bool,
    verified: bool,
    stale: bool,
    tombstone: bool,
    createdMs: nat,
    updatedMs: nat,
    accessCount: nat,
    evidence: seq<Evidence>,
    fileHashes: map<string, string>
  )

  // ---------- characters ----------

  /** The Unicode White_Space property. */
  predicate IsWhitespace(c: char) {
    '\U{0009}' <= c <= '\U{000D}' || c == ' ' || c == '\U{0085}' || c == '\U{00A0}' || c == '\U{1680}' ||
    '\U{2000}' <= c <= '\U{200A}' || c == '\U{2028}' || c == '\U{2029}' || c == '\U{202F}' ||
    c == '\U{205F}' || c == '\U{3000}'
  }

  function AsciiLower(c: char): char {
    if 'A' <= c <= 'Z' then c - 'A' + 'a' else c
  }

  /** White space, and the byte order mark that JavaScript trims as well. */
  predicate IsBlank(c: char) {
    IsWhitespace(c) || c == '\U{FEFF}'
  }

  function AsciiLowerAll(s: string): (r: string)
    ensures |r| == |s|
    ensures forall i :: 0 <= i < |s| ==> r[i] == AsciiLower(s[i])
  {
    seq(|s|, i requires 0 <= i < |s| => AsciiLower(s[i]))
  }

  predicate IsAscii(s: string) {
    forall i :: 0 <= i < |s| ==> s[i] < '\U{0080}'
  }

  /** A blank at this end of the text stays as it is, and no other character turns into one. */
  ghost predicate SameBlank(before: char, after: char) {
    if IsBlank(before) then after == before else !IsBlank(after)
  }

  /**
    What is used of lower-casing a text: it is idempotent, the usual one on ASCII,
    and neither brings in blanks nor moves those at the ends. One character may
    become several, and context may matter, as for the final sigma.
   */
  ghost predicate IsCaseMapping(lower: string -> string) {
    && (forall s :: lower(lower(s)) == lower(s))
    && (forall s :: IsAscii(s) ==> lower(s) == AsciiLowerAll(s))
    && (forall s :: lower(s) == "" <==> s == "")
    && (forall s, c :: c in lower(s) && IsBlank(c) ==> c in s)
    && (forall s :: s != "" ==> SameBlank(s[0], lower(s)[0]) && SameBlank(s[|s| - 1], lower(s)[|lower(s)| - 1]))
  }

  lemma AsciiLowerIsCaseMapping()
    ensures IsCaseMapping(AsciiLowerAll)
  {
    hide IsBlank, AsciiLower;
    forall c {
      AsciiLowerKeepsBlanks(c);
    }
    forall s ensures AsciiLowerAll(AsciiLowerAll(s)) == AsciiLowerAll(s) {
    }
    forall s, c | c in AsciiLowerAll(s) && IsBlank(c) ensures c in s {
      var i :| 0 <= i < |s| && AsciiLowerAll(s)[i] == c;
      assert SameBlank(s[i], c) && s[i] in s;
    }
  }

  lemma AsciiLowerKeepsBlanks(c: char)
    ensures AsciiLower(AsciiLower(c)) == AsciiLower(c) && SameBlank(c, AsciiLower(c))
  {
  }

  type CaseMapping = lower: string -> string | IsCaseMapping(lower)
    witness (AsciiLowerIsCaseMapping(); AsciiLowerAll)

  /** Some case mapping; nothing below depends on which one it is. */
  const CASE_MAPPING: CaseMapping

  function ToLower(s: string): string {
    CASE_MAPPING(s)
  }

  // ---------- words ----------

  predicate IsWord(w: string) {
    w != "" && forall i :: 0 <= i < |w| ==> !IsWhitespace(w[i])
  }

  /** The length of the longest white-space-free prefix. */
  function WordLength(s: string): (n: nat)
    ensures n <= |s|
    ensures forall i :: 0 <= i < n ==> !IsWhitespace(s[i])
    ensures n < |s| ==> IsWhitespace(s[n])
  {
    if s == "" || IsWhitespace(s[0]) then 0 else 1 + WordLength(s[1..])
  }

  /** Rust's `split_whitespace`. */
  function Words(s: string): (words: seq<string>)
    ensures forall i :: 0 <= i < |words| ==> IsWord(words[i])
    decreases |s|
  {
    if s == "" then []
    else if IsWhitespace(s[0]) then Words(s[1..])
    else var n := WordLength(s); [s[..n]] + Words(s[n..])
  }

  /** `join(" ")`. */
  function Join(words: seq<string>): string {
    if |words| == 0 then ""
    else if |words| == 1 then words[0]
    else words[0] + " " + Join(words[1..])
  }

  function LowerAll(words: seq<string>): (r: seq<string>)
    ensures |r| == |words|
  {
    seq(|words|, i requires 0 <= i < |words| => ToLower(words[i]))
  }

  function NormalizeKey(value: string): string {
    Join(LowerAll(Words(value)))
  }

  /** Every record is given its normal form before it is stored. */
  function Normalized(record: MemoryRecord): MemoryRecord {
    record.(normalizedKey := NormalizeKey(record.key))
  }

  function Accessed(record: MemoryRecord): MemoryRecord {
    record.(accessCount := record.accessCount + 1)
  }

  // ---------- normalising is idempotent ----------

  lemma {:induction false} WordLengthOfWord(w: string, rest: string)
    requires forall i :: 0 <= i < |w| ==> !IsWhitespace(w[i])
    requires rest == "" || IsWhitespace(rest[0])
    ensures WordLength(w + rest) == |w|
  {
    if w == "" {
      assert w + rest == rest;
    } else {
      assert (w + rest)[1..] == w[1..] + rest;
      WordLengthOfWord(w[1..], rest);
    }
  }

  lemma {:induction false} WordsOfJoin(words: seq<string>)
    requires forall i :: 0 <= i < |words| ==> IsWord(words[i])
    ensures Words(Join(words)) == words
  {
    if |words| == 0 {
    } else if |words| == 1 {
      WordLengthOfWord(words[0], "");
      assert words[0] + "" == words[0];
      assert words[0][|words[0]|..] == "";
    } else {
      var w, tail := words[0], " " + Join(words[1..]);
      assert Join(words) == w + tail;
      WordLengthOfWord(w, tail);
      assert (w + tail)[..|w|] == w && (w + tail)[|w|..] == tail;
      assert tail[1..] == Join(words[1..]);
      WordsOfJoin(words[1..]);
      assert Words(tail) == words[1..];
      assert [w] + words[1..] == words;
    }
  }

  lemma LowerKeepsWords(words: seq<string>)
    requires forall i :: 0 <= i < |words| ==> IsWord(words[i])
    ensures forall i :: 0 <= i < |words| ==> IsWord(LowerAll(words)[i])
    ensures LowerAll(LowerAll(words)) == LowerAll(words)
  {
    forall i | 0 <= i < |words|
      ensures IsWord(LowerAll(words)[i]) && ToLower(ToLower(words[i])) == ToLower(words[i])
    {
      forall j | 0 <= j < |ToLower(words[i])| ensures !IsWhitespace(ToLower(words[i])[j]) {
        var c := ToLower(words[i])[j];
        assert c in CASE_MAPPING(words[i]);
        assert IsBlank(c) ==> c in words[i];
      }
    }
  }

  /** The terms of a normal form are the lower-cased words of the text it came from. */
  lemma NormalTerms(value: string)
    ensures Words(NormalizeKey(value)) == LowerAll(Words(value))
  {
    LowerKeepsWords(Words(value));
    WordsOfJoin(LowerAll(Words(value)));
  }

  lemma NormalizeIdempotent(value: string)
    ensures NormalizeKey(NormalizeKey(value)) == NormalizeKey(value)
  {
    NormalTerms(value);
    LowerKeepsWords(Words(value));
  }

  /** Two texts have one normal form exactly when they have the same words up to case. */
  lemma {:induction false} NormalFormsAgree(left: string, right: string)
    ensures NormalizeKey(left) == NormalizeKey(right) <==> LowerAll(Words(left)) == LowerAll(Words(right))
  {
    NormalTerms(left);
    NormalTerms(right);
  }

  // ---------- words are what white space separates ----------

  /**
    Text without white space is one word, and every white-space character ends a
    word: nothing else splits or is lost.
   */
  lemma {:induction false} WordsSplit(a: string, c: char, b: string)
    requires IsWhitespace(c)
    ensures Words(a + [c] + b) == Words(a) + Words(b)
    decreases |a|
  {
    var whole := a + [c] + b;
    if a == "" {
      assert whole[1..] == b;
    } else if IsWhitespace(a[0]) {
      assert whole[1..] == a[1..] + [c] + b;
      WordsSplit(a[1..], c, b);
    } else {
      var n := WordLength(a);
      var rest := a[n..] + [c] + b;
      assert a == a[..n] + a[n..] && whole == a[..n] + rest;
      WordLengthOfWord(a[..n], rest);
      assert whole[..n] == a[..n] && whole[n..] == rest;
      WordsSplit(a[n..], c, b);
      assert Words(whole) == [a[..n]] + (Words(a[n..]) + Words(b));
    }
  }

  lemma WordsOfWord(w: string)
    ensures w == "" ==> Words(w) == []
    ensures IsWord(w) ==> Words(w) == [w]
  {
    if IsWord(w) {
      WordLengthOfWord(w, "");
      assert w + "" == w && w[|w|..] == "" && w[..|w|] == w;
    }
  }

  lemma {:induction false} JoinConcat(a: seq<string>, b: seq<string>)
    requires a != [] && b != []
    ensures Join(a + b) == Join(a) + " " + Join(b)
  {
    if |a| == 1 {
      assert (a + b)[1..] == b;
    } else {
      assert (a + b)[1..] == a[1..] + b;
      JoinConcat(a[1..], b);
    }
  }

  /**
    The normal form, read off the text: a word is lower-cased, and white space
    between two texts becomes one blank, or nothing where one of them has no word.
   */
  lemma NormalFormSplits(a: string, c: char, b: string)
    requires IsWhitespace(c)
    ensures var left, right := NormalizeKey(a), NormalizeKey(b);
            NormalizeKey(a + [c] + b) == if left == "" then right else if right == "" then left else left + " " + right
  {
    WordsSplit(a, c, b);
    var left, right := LowerAll(Words(a)), LowerAll(Words(b));
    assert LowerAll(Words(a) + Words(b)) == left + right;
    EmptyJoin(a);
    EmptyJoin(b);
    if left != [] && right != [] {
      JoinConcat(left, right);
    } else {
      assert left + right == if left == [] then right else left;
    }
  }

  lemma EmptyJoin(value: string)
    ensures NormalizeKey(value) == "" <==> LowerAll(Words(value)) == []
  {
    LowerKeepsWords(Words(value));
    WordsOfJoin(LowerAll(Words(value)));
    WordsOfWord("");
  }

  lemma NormalFormOfWord(w: string)
    requires w == "" || IsWord(w)
    ensures NormalizeKey(w) == ToLower(w)
    ensures IsAscii(w) ==> NormalizeKey(w) == AsciiLowerAll(w)
  {
    WordsOfWord(w);
    if w != "" {
      assert LowerAll([w]) == [ToLower(w)];
    }
  }

  /**
    On ASCII: six characters are white space, the upper-case letters move to the
    lower-case ones, and no other changes.
   */
  lemma AsciiCharacters(c: char)
    requires c < '\U{0080}'
    ensures IsWhitespace(c) <==> c in "\t\n\r \U{000B}\U{000C}"
    ensures AsciiLower(c) as int == c as int + if 65 <= c as int <= 90 then 32 else 0
  {
  }

  lemma CaseOfEmpty()
    ensures ToLower("") == ""
  {
  }

  /** White space is the 25 code points of the Unicode property of that name. */
  lemma WhiteSpaceProperty(c: char)
    ensures IsWhitespace(c) <==>
            c as int in {
              0x9, 0xA, 0xB, 0xC, 0xD, 0x20, 0x85, 0xA0, 0x1680, 0x2000, 0x2001, 0x2002, 0x2003, 0x2004, 0x2005, 0x2006,
              0x2007, 0x2008, 0x2009, 0x200A, 0x2028, 0x2029, 0x202F, 0x205F, 0x3000
            }
  {
  }

  predicate IsGap(gap: string) {
    forall i :: 0 <= i < |gap| ==> IsWhitespace(gap[i])
  }

  lemma {:induction false} LeadingGap(gap: string, b: string)
    requires IsGap(gap)
    ensures NormalizeKey(gap + b) == NormalizeKey(b)
  {
    hide NormalizeKey, IsWhitespace;
    if gap == "" {
      assert gap + b == b;
    } else {
      assert gap + b == "" + [gap[0]] + (gap[1..] + b);
      NormalFormSplits("", gap[0], gap[1..] + b);
      NormalFormOfWord("");
      CaseOfEmpty();
      LeadingGap(gap[1..], b);
    }
  }

  /** However much white space stands between two texts that have words, one blank stands between their normal forms. */
  lemma GapsBecomeBlanks(a: string, gap: string, b: string)
    requires IsGap(gap) && gap != "" && NormalizeKey(a) != "" && NormalizeKey(b) != ""
    ensures NormalizeKey(a + gap + b) == NormalizeKey(a) + " " + NormalizeKey(b)
  {
    hide NormalizeKey, IsWhitespace;
    assert a + gap + b == a + [gap[0]] + (gap[1..] + b);
    NormalFormSplits(a, gap[0], gap[1..] + b);
    LeadingGap(gap[1..], b);
  }

  predicate IsLetter(c: char) {
    'A' <= c <= 'Z' || 'a' <= c <= 'z'
  }

  lemma NormalFormOfLetters(w: string, lower: string)
    requires |w| == |lower| && forall i :: 0 <= i < |w| ==> IsLetter(w[i]) && lower[i] == AsciiLower(w[i])
    ensures NormalizeKey(w) == lower
  {
    NormalFormOfWord(w);
    assert AsciiLowerAll(w) == lower;
  }

  /** A stored key is found again whatever its case and however many blanks are typed. */
  lemma BuildCommand()
    ensures NormalizeKey("BUILD   COMMAND") == NormalizeKey("build command") == "build command"
  {
    hide NormalizeKey, IsWhitespace;
    NormalFormOfLetters("BUILD", "build");
    NormalFormOfLetters("COMMAND", "command");
    NormalFormOfLetters("build", "build");
    NormalFormOfLetters("command", "command");
    Blanks();
    assert "BUILD" + "   " + "COMMAND" == "BUILD   COMMAND" && "build" + " " + "command" == "build command";
    GapsBecomeBlanks("BUILD", "   ", "COMMAND");
    GapsBecomeBlanks("build", " ", "command");
  }

  lemma Blanks()
    ensures IsGap(" ") && IsGap("   ")
  {
  }

  // ---------- records ----------

  /** Normalising a record sets its normal key, and an access counts one more; neither touches anything else. */
  lemma RecordUpdates(record: MemoryRecord)
    ensures Normalized(record).normalizedKey == NormalizeKey(record.key)
    ensures Normalized(record).(normalizedKey := record.normalizedKey) == record
    ensures Accessed(record).accessCount == record.accessCount + 1
    ensures Accessed(record).(accessCount := record.accessCount) == record
  {
  }
}
