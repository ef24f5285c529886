/**
  How many parse diagnostics an edit introduces (crates/tst-core/src/editing.rs):
  a difference of multisets of signatures, computed by counting.
 */
module Diagnostics {
  import opened Wrappers
  import opened Wal

  /** The span and kind of a diagnostic; its rows and columns are never compared. */
  datatype ParseDiagnostic = ParseDiagnostic(kind: string, startByte: nat, endByte: nat)

  ghost predicate IsDigest(digest: seq<byte> -> string) {
    forall text :: |digest(text)| == DIGEST_LENGTH
  }

  const DIGEST_LENGTH: nat := 64

  /** A digest in hexadecimal, of fixed length. */
  type Digest = digest: seq<byte> -> string | IsDigest(digest) witness _ => seq(DIGEST_LENGTH, _ => '0')

  /** Some digest; nothing below depends on which one it is. */
  const SHA256: Digest

  /** Kind and digest of the text, with the span clipped to the source. */
  function Signature(diagnostic: ParseDiagnostic, source: seq<byte>): string {
    var start := MinNat(diagnostic.startByte, |source|);
    var end := MaxNat(MinNat(diagnostic.endByte, |source|), start);
    diagnostic.kind + ":" + SHA256(source[start..end])
  }

  function Signatures(diagnostics: seq<ParseDiagnostic>, source: seq<byte>): (signatures: seq<string>)
    ensures |signatures| == |diagnostics|
    ensures forall i :: 0 <= i < |diagnostics| ==> signatures[i] == Signature(diagnostics[i], source)
  {
    seq(|diagnostics|, i requires 0 <= i < |diagnostics| => Signature(diagnostics[i], source))
  }

  /** How often a signature is still available. */
  function Available(counts: map<string, nat>, signature: string): nat {
    if signature in counts then counts[signature] else 0
  }

  method IntroducedDiagnosticCount(base: seq<ParseDiagnostic>, baseSource: seq<byte>,
                                   staged: seq<ParseDiagnostic>, stagedSource: seq<byte>)
    returns (introduced: nat)
    ensures introduced == |multiset(Signatures(staged, stagedSource)) - multiset(Signatures(base, baseSource))|
    ensures NoCollisions(Findings(base, baseSource) + Findings(staged, stagedSource)) ==>
              introduced == |multiset(Findings(staged, stagedSource)) - multiset(Findings(base, baseSource))|
  {
    hide Signature, Signatures, Counts, Surplus, Findings, NoCollisions;
    ghost var before, after := Signatures(base, baseSource), Signatures(staged, stagedSource);
    var available: map<string, nat> := map[];
    NoneYet();
    ghost var seen: multiset<string> := multiset{};
    for i := 0 to |base|
      invariant seen == multiset(before[..i])
      invariant Counts(available, seen, multiset{})
    {
      var signature := Signature(base[i], baseSource);
      OneLonger(before, i);
      AddOne(available, seen, signature);
      available := available[signature := Available(available, signature) + 1];
      seen := seen + multiset{signature};
    }
    assert before[..|base|] == before;
    introduced := 0;
    seen := multiset{};
    NoSurplus(multiset(before));
    for i := 0 to |staged|
      invariant seen == multiset(after[..i])
      invariant Counts(available, multiset(before), seen)
      invariant introduced == Surplus(seen, multiset(before))
    {
      var signature := Signature(staged[i], stagedSource);
      OneLonger(after, i);
      OneMore(seen, multiset(before), signature);
      UseOne(available, multiset(before), seen, signature);
      if signature in available && available[signature] > 0 {
        available := available[signature := available[signature] - 1];
      } else {
        introduced := introduced + 1;
      }
      seen := seen + multiset{signature};
    }
    assert after[..|staged|] == after;
    IsSurplus(multiset(after), multiset(before));
    if NoCollisions(Findings(base, baseSource) + Findings(staged, stagedSource)) {
      CountOfFindings(base, baseSource, staged, stagedSource);
    }
  }

  /** The counts are those of `base` less those used up by `used`. */
  ghost predicate Counts(available: map<string, nat>, base: multiset<string>, used: multiset<string>) {
    forall s :: Available(available, s) == if used[s] < base[s] then base[s] - used[s] else 0
  }

  /** How many of `staged` are left once those of `base` are struck out. */
  ghost function Surplus<T>(staged: multiset<T>, base: multiset<T>): nat {
    |staged - base|
  }

  lemma NoSurplus<T>(base: multiset<T>)
    ensures Surplus(multiset{}, base) == 0
  {
    assert multiset{} - base == multiset{};
  }

  lemma IsSurplus<T>(staged: multiset<T>, base: multiset<T>)
    ensures Surplus(staged, base) == |staged - base|
  {
  }

  lemma OneLonger<T>(signatures: seq<T>, i: nat)
    requires i < |signatures|
    ensures multiset(signatures[..i + 1]) == multiset(signatures[..i]) + multiset{signatures[i]}
  {
    assert signatures[..i + 1] == signatures[..i] + [signatures[i]];
  }

  lemma NoneYet()
    ensures Counts(map[], multiset{}, multiset{})
  {
  }

  lemma AddOne(available: map<string, nat>, base: multiset<string>, signature: string)
    requires Counts(available, base, multiset{})
    ensures Counts(available[signature := Available(available, signature) + 1], base + multiset{signature}, multiset{})
  {
  }

  lemma UseOne(available: map<string, nat>, base: multiset<string>, used: multiset<string>, signature: string)
    requires Counts(available, base, used)
    ensures Available(available, signature) > 0 <==> used[signature] < base[signature]
    ensures Available(available, signature) > 0 ==>
              Counts(available[signature := Available(available, signature) - 1], base, used + multiset{signature})
    ensures Available(available, signature) == 0 ==> Counts(available, base, used + multiset{signature})
  {
  }

  lemma OneMore<T>(staged: multiset<T>, base: multiset<T>, signature: T)
    ensures Surplus(staged + multiset{signature}, base)
        == Surplus(staged, base) + (if staged[signature] < base[signature] then 0 else 1)
  {
    if staged[signature] < base[signature] {
      assert staged + multiset{signature} - base == staged - base;
    } else {
      assert staged + multiset{signature} - base == staged - base + multiset{signature};
    }
  }

  // ---------- what the count means ----------

  ghost function Introduced(base: seq<string>, staged: seq<string>): nat {
    Surplus(multiset(staged), multiset(base))
  }

  /** Nothing is introduced exactly when the staged signatures are among the base ones, with multiplicity. */
  lemma NothingIntroduced(base: seq<string>, staged: seq<string>)
    ensures Introduced(base, staged) == 0 <==> multiset(staged) <= multiset(base)
  {
    var extra := multiset(staged) - multiset(base);
    if |extra| == 0 {
      assert extra == multiset{};
      forall s ensures multiset(staged)[s] <= multiset(base)[s] {
        assert extra[s] == 0;
      }
    }
    if multiset(staged) <= multiset(base) {
      assert extra == multiset{};
    }
  }

  /** The net change of the number of diagnostics is what was introduced less what was resolved. */
  lemma IntroducedLessResolved(base: seq<string>, staged: seq<string>)
    ensures |staged| - |base| == Introduced(base, staged) - Introduced(staged, base)
  {
    var s, b := multiset(staged), multiset(base);
    assert s == (s - b) + (s * b);
    assert b == (b - s) + (s * b);
    assert |s| == |staged| && |b| == |base|;
  }

  // ---------- what is compared ----------

  /** Kind and covered text: what a diagnostic says, wherever it stands. */
  datatype Finding = Finding(kind: string, text: seq<byte>)

  /** The part of the span that lies within the source; nothing if the span ends before it starts. */
  ghost function CoveredText(d: ParseDiagnostic, source: seq<byte>): seq<byte> {
    var end := if d.endByte < |source| then d.endByte else |source|;
    if d.startByte < end then source[d.startByte..end] else []
  }

  ghost function Findings(diagnostics: seq<ParseDiagnostic>, source: seq<byte>): (findings: seq<Finding>)
    ensures |findings| == |diagnostics|
    ensures forall i :: 0 <= i < |diagnostics| ==>
              findings[i] == Finding(diagnostics[i].kind, CoveredText(diagnostics[i], source))
  {
    seq(|diagnostics|, i requires 0 <= i < |diagnostics| =>
      Finding(diagnostics[i].kind, CoveredText(diagnostics[i], source)))
  }

  /** The digest tells these texts apart. */
  ghost predicate NoCollisions(findings: seq<Finding>) {
    forall f, g :: f in findings && g in findings && SHA256(f.text) == SHA256(g.text) ==> f.text == g.text
  }

  /** Where the digest tells the texts apart, signatures are equal exactly if kind and covered text are. */
  lemma SignatureDecides(d: ParseDiagnostic, source: seq<byte>, e: ParseDiagnostic, later: seq<byte>)
    requires SHA256(CoveredText(d, source)) == SHA256(CoveredText(e, later)) ==>
               CoveredText(d, source) == CoveredText(e, later)
    ensures Signature(d, source) == Signature(e, later)
       <==> d.kind == e.kind && CoveredText(d, source) == CoveredText(e, later)
  {
    SignatureReads(d, source);
    SignatureReads(e, later);
    SuffixesAgree(d.kind + ":", SHA256(CoveredText(d, source)), e.kind + ":", SHA256(CoveredText(e, later)));
    SuffixesAgree(d.kind, ":", e.kind, ":");
  }

  lemma SignatureReads(d: ParseDiagnostic, source: seq<byte>)
    ensures Signature(d, source) == d.kind + ":" + SHA256(CoveredText(d, source))
  {
    assert forall i :: 0 <= i <= |source| ==> source[i..i] == [];
  }

  lemma SuffixesAgree(a: string, x: string, b: string, y: string)
    requires |x| == |y|
    ensures a + x == b + y <==> a == b && x == y
  {
    if a + x == b + y {
      assert |a + x| == |a| + |x| && |b + y| == |b| + |y|;
      assert a == (a + x)[..|a|] && b == (b + y)[..|b|];
      assert x == (a + x)[|a|..] && y == (b + y)[|b|..];
    }
  }

  /** Two sequences with matching elements hold a matching pair equally often. */
  lemma {:induction false} CountAlike<A, B>(xs: seq<A>, x: A, ys: seq<B>, y: B)
    requires |xs| == |ys| && forall i :: 0 <= i < |xs| ==> (xs[i] == x <==> ys[i] == y)
    ensures multiset(xs)[x] == multiset(ys)[y]
  {
    if xs != [] {
      CountAlike(xs[1..], x, ys[1..], y);
      assert xs == [xs[0]] + xs[1..] && ys == [ys[0]] + ys[1..];
    }
  }

  /** Element `x` stands where `y` does. */
  ghost predicate Alike<A, B>(xs: seq<A>, x: A, ys: seq<B>, y: B) {
    |xs| == |ys| && forall i :: 0 <= i < |xs| ==> (xs[i] == x <==> ys[i] == y)
  }

  /** Renaming elements one to one does not change how many are left. */
  lemma {:induction false} SurplusAlike<A, B>(base: seq<A>, staged: seq<A>, base': seq<B>, staged': seq<B>, count: nat)
    requires |staged| == |staged'| && count <= |staged| && |base| == |base'|
    requires forall i :: 0 <= i < |staged| ==> Alike(base, staged[i], base', staged'[i])
    requires forall i :: 0 <= i < |staged| ==> Alike(staged, staged[i], staged', staged'[i])
    ensures Surplus(multiset(staged[..count]), multiset(base)) == Surplus(multiset(staged'[..count]), multiset(base'))
  {
    hide Surplus;
    if count == 0 {
      NoSurplus(multiset(base));
      NoSurplus(multiset(base'));
    } else {
      var last := count - 1;
      SurplusAlike(base, staged, base', staged', last);
      assert Alike(base, staged[last], base', staged'[last]) && Alike(staged, staged[last], staged', staged'[last]);
      SurplusStep(base, staged, base', staged', last);
    }
  }

  lemma SurplusStep<A, B>(base: seq<A>, staged: seq<A>, base': seq<B>, staged': seq<B>, i: nat)
    requires |staged| == |staged'| && i < |staged|
    requires Alike(base, staged[i], base', staged'[i]) && Alike(staged, staged[i], staged', staged'[i])
    ensures Surplus(multiset(staged[..i + 1]), multiset(base)) - Surplus(multiset(staged[..i]), multiset(base))
         == Surplus(multiset(staged'[..i + 1]), multiset(base')) - Surplus(multiset(staged'[..i]), multiset(base'))
  {
    hide Surplus;
    CountAlike(base, staged[i], base', staged'[i]);
    CountAlike(staged[..i], staged[i], staged'[..i], staged'[i]);
    OneLonger(staged, i);
    OneLonger(staged', i);
    OneMore(multiset(staged[..i]), multiset(base), staged[i]);
    OneMore(multiset(staged'[..i]), multiset(base'), staged'[i]);
  }

  /** The count of introduced signatures is that of introduced findings. */
  lemma CountOfFindings(base: seq<ParseDiagnostic>, baseSource: seq<byte>,
                        staged: seq<ParseDiagnostic>, stagedSource: seq<byte>)
    requires NoCollisions(Findings(base, baseSource) + Findings(staged, stagedSource))
    ensures |multiset(Signatures(staged, stagedSource)) - multiset(Signatures(base, baseSource))|
         == |multiset(Findings(staged, stagedSource)) - multiset(Findings(base, baseSource))|
  {
    hide Signature, CoveredText;
    var before, after := Findings(base, baseSource), Findings(staged, stagedSource);
    var beforeSigs, afterSigs := Signatures(base, baseSource), Signatures(staged, stagedSource);
    forall i, j | 0 <= i < |after| && 0 <= j < |before|
      ensures beforeSigs[j] == afterSigs[i] <==> before[j] == after[i]
    {
      assert before[j] in before + after && after[i] in before + after;
      SignatureDecides(base[j], baseSource, staged[i], stagedSource);
    }
    forall i, j | 0 <= i < |after| && 0 <= j < |after|
      ensures afterSigs[j] == afterSigs[i] <==> after[j] == after[i]
    {
      assert after[j] in before + after && after[i] in before + after;
      SignatureDecides(staged[j], stagedSource, staged[i], stagedSource);
    }
    SurplusAlike(beforeSigs, afterSigs, before, after, |after|);
    assert afterSigs[..|after|] == afterSigs && after[..|after|] == after;
  }

  /** An edit that replaces one syntax error by another introduces one. */
  lemma ReplacedErrorIsIntroduced(kind: string, bad: seq<byte>, good: seq<byte>)
    requires |bad| == |good| == 3 && bad != good && SHA256(bad) != SHA256(good)
    ensures var d := ParseDiagnostic(kind, 0, 3);
            Introduced(Signatures([d], bad), Signatures([d], good)) == 1
  {
    var d := ParseDiagnostic(kind, 0, 3);
    assert bad[0..3] == bad && good[0..3] == good;
    SignatureDecides(d, bad, d, good);
    var before, after := Signatures([d], bad), Signatures([d], good);
    assert before == [Signature(d, bad)] && after == [Signature(d, good)];
    assert multiset(after) - multiset(before) == multiset{Signature(d, good)};
  }

  /** A diagnostic that only moved keeps its signature: it is compared by kind and text, not by place. */
  lemma MovedKeepsSignature(d: ParseDiagnostic, source: seq<byte>, e: ParseDiagnostic, later: seq<byte>)
    requires d.kind == e.kind
    requires d.startByte <= d.endByte <= |source| && e.startByte <= e.endByte <= |later|
    requires source[d.startByte..d.endByte] == later[e.startByte..e.endByte]
    ensures Signature(d, source) == Signature(e, later)
  {
  }

  /** A span beyond the source, or one that ends before it starts, counts as the empty text. */
  lemma OutOfRangeIsEmpty(d: ParseDiagnostic, source: seq<byte>)
    requires d.startByte >= |source| || d.endByte <= d.startByte
    ensures Signature(d, source) == d.kind + ":" + SHA256([])
  {
    var start := MinNat(d.startByte, |source|);
    assert source[start..start] == [];
  }
}
