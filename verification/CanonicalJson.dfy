/**
  The canonical form behind `stableStringify` (scripts/lib/benchmark-contract.ts):
  every object of a nested value is rewritten with its entries sorted by key.
 */
module CanonicalJson {
  import opened Sorting
  import TernaryTree

  datatype Field = Field(key: string, value: Json)

  datatype Json =
    | Null
    | Bool(flag: bool)
    | Number(number: real)
    | Text(text: string)
    | Array(items: seq<Json>)
    | Object(fields: seq<Field>)

  /**
    `localeCompare` as "sorts before": a strict weak order, under which different
    keys may compare equal.
   */
  type KeyOrder = before: (string, string) -> bool | IsStrictWeakOrder(before)
    witness (TernaryTree.LessIsStrict(); TernaryTree.Less)

  /** Some key order; nothing below depends on which one it is. */
  const LOCALE_ORDER: KeyOrder

  predicate ByKey(a: Field, b: Field) {
    LOCALE_ORDER(a.key, b.key)
  }

  // ---------- the code ----------

  function SortValue(value: Json): (r: Json)
    decreases value, 1, 0
  {
    match value
    case Array(items) => Array(SortItems(items, value))
    case Object(fields) =>
      var entries := SortedFields(fields);
      SortedFieldsAreSmaller(value);
      Object(SortEntries(entries, value))
    case _ => value
  }

  lemma SortedFieldsAreSmaller(value: Json)
    requires value.Object?
    ensures forall i :: 0 <= i < |value.fields| ==> SortedFields(value.fields)[i].value < value
  {
    var sorted := SortedFields(value.fields);
    forall i | 0 <= i < |sorted| ensures sorted[i].value < value {
      assert sorted[i] in value.fields;
      var j :| 0 <= j < |value.fields| && value.fields[j] == sorted[i];
      assert value.fields[j] < value;
    }
  }

  function SortedFields(fields: seq<Field>): (entries: seq<Field>)
    ensures |entries| == |fields|
    ensures forall f :: f in entries <==> f in fields
  {
    forall f: Field ensures f in StableSort(ByKey, fields) <==> f in fields {
      SortedMember(ByKey, fields, f);
    }
    StableSort(ByKey, fields)
  }

  function SortItems(items: seq<Json>, ghost whole: Json): (r: seq<Json>)
    requires forall i :: 0 <= i < |items| ==> items[i] < whole
    ensures |r| == |items|
    ensures forall i :: 0 <= i < |items| ==> r[i] == SortValue(items[i])
    decreases whole, 0, |items|
  {
    if items == [] then [] else [SortValue(items[0])] + SortItems(items[1..], whole)
  }

  function SortEntries(entries: seq<Field>, ghost whole: Json): (r: seq<Field>)
    requires forall i :: 0 <= i < |entries| ==> entries[i].value < whole
    ensures |r| == |entries|
    ensures forall i :: 0 <= i < |entries| ==> r[i] == Field(entries[i].key, SortValue(entries[i].value))
    decreases whole, 0, |entries|
  {
    if entries == [] then []
    else [Field(entries[0].key, SortValue(entries[0].value))] + SortEntries(entries[1..], whole)
  }

  // ---------- the meaning ----------

  ghost predicate UniqueKeys(fields: seq<Field>) {
    forall i, j :: 0 <= i < |fields| && 0 <= j < |fields| && fields[i].key == fields[j].key ==> i == j
  }

  /** Keys are unique in every object, as they are in a JavaScript object. */
  ghost predicate WellFormed(value: Json) {
    match value
    case Array(items) => forall i :: 0 <= i < |items| ==> WellFormed(items[i])
    case Object(fields) => UniqueKeys(fields) && forall i :: 0 <= i < |fields| ==> WellFormed(fields[i].value)
    case _ => true
  }

  ghost predicate Untied(fields: seq<Field>) {
    forall i, j :: 0 <= i < j < |fields| ==> ByKey(fields[i], fields[j]) || ByKey(fields[j], fields[i])
  }

  /** No two keys of one object compare equal, at any depth. */
  ghost predicate Separated(value: Json) {
    match value
    case Array(items) => forall i :: 0 <= i < |items| ==> Separated(items[i])
    case Object(fields) =>
      Untied(fields) && (forall i :: 0 <= i < |fields| ==> Separated(fields[i].value))
    case _ => true
  }

  ghost function KeysOf(fields: seq<Field>): set<string> {
    set f | f in fields :: f.key
  }

  /** Equal up to the order of object entries, at every depth. */
  ghost predicate Equivalent(a: Json, b: Json)
    decreases a
  {
    match a
    case Array(items) =>
      && b.Array? && |items| == |b.items|
      && forall i :: 0 <= i < |items| ==> Equivalent(items[i], b.items[i])
    case Object(fields) =>
      && b.Object? && KeysOf(fields) == KeysOf(b.fields)
      && forall i, j :: 0 <= i < |fields| && 0 <= j < |b.fields| && fields[i].key == b.fields[j].key ==>
           Equivalent(fields[i].value, b.fields[j].value)
    case _ => a == b
  }

  // ---------- sorting the entries of one object ----------

  ghost function KeyList(fields: seq<Field>): (keys: seq<string>)
    ensures |keys| == |fields|
    ensures forall i :: 0 <= i < |keys| ==> keys[i] == fields[i].key
  {
    seq(|fields|, i requires 0 <= i < |fields| => fields[i].key)
  }

  lemma KeyListMembers(fields: seq<Field>, k: string)
    ensures k in KeyList(fields) <==> k in KeysOf(fields)
  {
    if k in KeysOf(fields) {
      var f :| f in fields && f.key == k;
      var i :| 0 <= i < |fields| && fields[i] == f;
      assert KeyList(fields)[i] == k;
    }
    if k in KeyList(fields) {
      var i :| 0 <= i < |fields| && KeyList(fields)[i] == k;
      assert fields[i] in fields;
    }
  }

  lemma SortedKeys(fields: seq<Field>)
    ensures KeysOf(SortedFields(fields)) == KeysOf(fields)
  {
  }

  lemma {:induction false} SizeOfUnique(fields: seq<Field>)
    requires UniqueKeys(fields)
    ensures |KeysOf(fields)| == |fields|
  {
    if fields == [] {
      assert KeysOf(fields) == {};
    } else {
      var last := |fields| - 1;
      SizeOfUnique(fields[..last]);
      assert fields == fields[..last] + [fields[last]];
      assert KeysOf(fields) == KeysOf(fields[..last]) + {fields[last].key};
      assert fields[last].key !in KeysOf(fields[..last]);
    }
  }

  /** As many distinct keys as entries means no key twice. */
  lemma {:induction false} UniqueOfSize(fields: seq<Field>)
    requires |KeysOf(fields)| == |fields|
    ensures UniqueKeys(fields)
  {
    if fields != [] {
      var last := |fields| - 1;
      var rest := fields[..last];
      assert fields == rest + [fields[last]];
      assert KeysOf(fields) == KeysOf(rest) + {fields[last].key};
      AtMostSize(rest);
      assert fields[last].key !in KeysOf(rest);
      UniqueOfSize(rest);
      forall i | 0 <= i < last ensures fields[i].key != fields[last].key {
        assert fields[i] in rest;
      }
      forall i, j | 0 <= i < |fields| && 0 <= j < |fields| && fields[i].key == fields[j].key ensures i == j {
        if i < last && j < last {
          assert rest[i].key == rest[j].key;
        }
      }
    }
  }

  lemma {:induction false} AtMostSize(fields: seq<Field>)
    ensures |KeysOf(fields)| <= |fields|
  {
    if fields == [] {
      assert KeysOf(fields) == {};
    } else {
      var last := |fields| - 1;
      AtMostSize(fields[..last]);
      assert fields == fields[..last] + [fields[last]];
      assert KeysOf(fields) == KeysOf(fields[..last]) + {fields[last].key};
    }
  }

  lemma SortKeepsUnique(fields: seq<Field>)
    requires UniqueKeys(fields)
    ensures UniqueKeys(SortedFields(fields))
  {
    SortedKeys(fields);
    SizeOfUnique(fields);
    UniqueOfSize(SortedFields(fields));
  }

  /** Where in the object an entry stood. */
  ghost function Position(fields: seq<Field>, f: Field): (i: int)
    ensures f in fields ==> 0 <= i < |fields| && fields[i] == f
  {
    if f in fields then (var i :| 0 <= i < |fields| && fields[i] == f; i) else -1
  }

  /** The order of a stable sort: by key, then by position. */
  ghost predicate Before(fields: seq<Field>, a: Field, b: Field) {
    ByKey(a, b) || (!ByKey(b, a) && Position(fields, a) < Position(fields, b))
  }

  lemma SortedByPosition(fields: seq<Field>)
    requires UniqueKeys(fields)
    ensures StrictlyOrdered((a, b) => Before(fields, a, b), SortedFields(fields))
  {
    var fine := (a, b) => Before(fields, a, b);
    forall i | 0 <= i < |fields| ensures Position(fields, fields[i]) == i {
      assert fields[i] in fields;
    }
    SortOrdered(fine, ByKey, fields);
  }

  /** Where no two keys tie, the sorted keys are strictly ordered. */
  lemma SeparatedKeysOrdered(fields: seq<Field>)
    requires UniqueKeys(fields) && Untied(fields)
    ensures StrictlyOrdered(LOCALE_ORDER, KeyList(SortedFields(fields)))
  {
    SortedByPosition(fields);
    SortKeepsUnique(fields);
    var sorted := SortedFields(fields);
    forall i, j | 0 <= i < j < |sorted| ensures ByKey(sorted[i], sorted[j]) {
      assert Before(fields, sorted[i], sorted[j]);
      assert sorted[i] in fields && sorted[j] in fields;
      var p, q := Position(fields, sorted[i]), Position(fields, sorted[j]);
      assert fields[p] == sorted[i] && fields[q] == sorted[j];
    }
  }

  // ---------- canonical exactly up to order ----------

  /** One form means equal up to the order of entries, whether keys tie or not. */
  lemma {:induction false} SameFormIsEquivalent(a: Json, b: Json)
    requires WellFormed(a) && WellFormed(b) && SortValue(a) == SortValue(b)
    ensures Equivalent(a, b)
    decreases a
  {
    if a.Array? && b.Array? {
      var left, right := SortItems(a.items, a), SortItems(b.items, b);
      assert left == right;
      forall i | 0 <= i < |a.items| ensures Equivalent(a.items[i], b.items[i]) {
        assert left[i] == SortValue(a.items[i]) && right[i] == SortValue(b.items[i]);
        SameFormIsEquivalent(a.items[i], b.items[i]);
      }
    } else if a.Object? && b.Object? {
      forall f, g | f in a.fields && g in b.fields && SortValue(f.value) == SortValue(g.value)
        ensures Equivalent(f.value, g.value)
      {
        SameFormIsEquivalent(f.value, g.value);
      }
      SameFormFields(a, b);
    }
  }

  /** For each pair of entries, equal forms mean equivalence. */
  ghost predicate FormsDecide(a: seq<Field>, b: seq<Field>) {
    forall f, g :: f in a && g in b && SortValue(f.value) == SortValue(g.value) ==> Equivalent(f.value, g.value)
  }

  lemma SameFormFields(a: Json, b: Json)
    requires a.Object? && b.Object? && WellFormed(a) && WellFormed(b)
    requires FormsDecide(a.fields, b.fields) && SortValue(a) == SortValue(b)
    ensures Equivalent(a, b)
  {
    hide FormsDecide;
    SortedFieldsAreSmaller(a);
    SortedFieldsAreSmaller(b);
    FormDecidesFields(a.fields, b.fields, SortEntries(SortedFields(a.fields), a));
  }

  /** Where no keys of the first tie, equal up to the order of entries means one form. */
  lemma {:induction false} EquivalentHasOneForm(a: Json, b: Json)
    requires WellFormed(a) && WellFormed(b) && Separated(a) && Equivalent(a, b)
    ensures SortValue(a) == SortValue(b)
    decreases a
  {
    if a.Array? {
      var left, right := SortItems(a.items, a), SortItems(b.items, b);
      forall i | 0 <= i < |left| ensures left[i] == right[i] {
        EquivalentHasOneForm(a.items[i], b.items[i]);
      }
    } else if a.Object? {
      forall f, g | f in a.fields && g in b.fields && Equivalent(f.value, g.value)
        ensures SortValue(f.value) == SortValue(g.value)
      {
        EquivalentHasOneForm(f.value, g.value);
      }
      EquivalentFieldsForm(a, b);
    }
  }

  /** For each pair of entries, equivalence means equal forms. */
  ghost predicate FormsFollow(a: seq<Field>, b: seq<Field>) {
    forall f, g :: f in a && g in b && Equivalent(f.value, g.value) ==> SortValue(f.value) == SortValue(g.value)
  }

  lemma EquivalentFieldsForm(a: Json, b: Json)
    requires a.Object? && b.Object? && WellFormed(a) && WellFormed(b)
    requires Separated(a) && FormsFollow(a.fields, b.fields) && Equivalent(a, b)
    ensures SortValue(a) == SortValue(b)
  {
    hide FormsFollow;
    SortedFieldsAreSmaller(a);
    SortedFieldsAreSmaller(b);
    SameKeysSeparated(a.fields, b.fields);
    SeparatedKeysOrdered(a.fields);
    SeparatedKeysOrdered(b.fields);
    EquivalentHasSameForm(a.fields, b.fields);
    assert SortEntries(SortedFields(a.fields), a) == SortEntries(SortedFields(b.fields), b);
  }

  /** Two values have one canonical form exactly when they are equal up to the order of entries. */
  lemma CanonicalForm(a: Json, b: Json)
    requires WellFormed(a) && WellFormed(b) && Separated(a)
    ensures SortValue(a) == SortValue(b) <==> Equivalent(a, b)
  {
    if SortValue(a) == SortValue(b) {
      SameFormIsEquivalent(a, b);
    }
    if Equivalent(a, b) {
      EquivalentHasOneForm(a, b);
    }
  }

  lemma SameKeysSeparated(a: seq<Field>, b: seq<Field>)
    requires Untied(a) && UniqueKeys(b) && KeysOf(a) == KeysOf(b)
    ensures Untied(b)
  {
    forall i, j | 0 <= i < j < |b| ensures ByKey(b[i], b[j]) || ByKey(b[j], b[i]) {
      assert b[i] in b && b[j] in b;
      assert b[i].key in KeysOf(a) && b[j].key in KeysOf(a);
      var f :| f in a && f.key == b[i].key;
      var g :| g in a && g.key == b[j].key;
      var p :| 0 <= p < |a| && a[p] == f;
      var q :| 0 <= q < |a| && a[q] == g;
      assert p != q;
    }
  }

  ghost predicate EquivalentFields(a: seq<Field>, b: seq<Field>) {
    && KeysOf(a) == KeysOf(b)
    && forall i, j :: 0 <= i < |a| && 0 <= j < |b| && a[i].key == b[j].key ==> Equivalent(a[i].value, b[j].value)
  }

  /** `form` has the sorted keys and canonical values of `fields`. */
  ghost predicate IsForm(form: seq<Field>, sorted: seq<Field>) {
    |form| == |sorted| && forall i :: 0 <= i < |sorted| ==> form[i] == Field(sorted[i].key, SortValue(sorted[i].value))
  }

  lemma FormDecidesFields(a: seq<Field>, b: seq<Field>, form: seq<Field>)
    requires UniqueKeys(a) && UniqueKeys(b) && FormsDecide(a, b)
    requires IsForm(form, SortedFields(a)) && IsForm(form, SortedFields(b))
    ensures EquivalentFields(a, b)
  {
    hide SortValue, Equivalent, WellFormed, StableSort;
    var sa, sb := SortedFields(a), SortedFields(b);
    SortKeepsUnique(b);
    assert KeyList(sa) == KeyList(sb);
    forall k ensures k in KeysOf(a) <==> k in KeysOf(b) {
      KeyListMembers(sa, k);
      KeyListMembers(sb, k);
      SortedKeys(a);
      SortedKeys(b);
    }
    forall i, j | 0 <= i < |a| && 0 <= j < |b| && a[i].key == b[j].key
      ensures Equivalent(a[i].value, b[j].value)
    {
      assert a[i] in sa && b[j] in sb;
      var p :| 0 <= p < |sa| && sa[p] == a[i];
      var q :| 0 <= q < |sb| && sb[q] == b[j];
      assert form[p].key == sb[p].key == sb[q].key;
    }
  }

  lemma EquivalentHasSameForm(a: seq<Field>, b: seq<Field>)
    requires EquivalentFields(a, b) && FormsFollow(a, b)
    requires StrictlyOrdered(LOCALE_ORDER, KeyList(SortedFields(a)))
        && StrictlyOrdered(LOCALE_ORDER, KeyList(SortedFields(b)))
    ensures |SortedFields(a)| == |SortedFields(b)|
    ensures forall p :: 0 <= p < |a| ==>
              var f, g := SortedFields(a)[p], SortedFields(b)[p];
              f.key == g.key && SortValue(f.value) == SortValue(g.value)
  {
    hide SortValue, Equivalent, WellFormed, StableSort;
    var sa, sb := SortedFields(a), SortedFields(b);
    forall k ensures k in KeyList(sa) <==> k in KeyList(sb) {
      KeyListMembers(sa, k);
      KeyListMembers(sb, k);
      SortedKeys(a);
      SortedKeys(b);
    }
    ArrangementUnique(LOCALE_ORDER, KeyList(sa), KeyList(sb));
    assert |sa| == |KeyList(sa)| == |KeyList(sb)| == |sb|;
    forall p | 0 <= p < |sa| ensures sa[p].key == sb[p].key && SortValue(sa[p].value) == SortValue(sb[p].value) {
      assert KeyList(sa)[p] == KeyList(sb)[p];
      assert sa[p] in sa && sb[p] in sb;
      var i :| 0 <= i < |a| && a[i] == sa[p];
      var j :| 0 <= j < |b| && b[j] == sb[p];
      assert a[i] in a && b[j] in b;
    }
  }

  // ---------- where the form is not canonical ----------

  /** The same value with the entries of every object in reverse order. */
  ghost function Mirror(v: Json): (r: Json)
    ensures r.Array? <==> v.Array?
    ensures r.Object? <==> v.Object?
  {
    match v
    case Array(items) => Array(seq(|items|, i requires 0 <= i < |items| => Mirror(items[i])))
    case Object(fields) =>
      var n := |fields|;
      Object(seq(n, i requires 0 <= i < n => Field(fields[n - 1 - i].key, Mirror(fields[n - 1 - i].value))))
    case _ => v
  }

  lemma {:induction false} MirrorIsEquivalent(v: Json)
    requires WellFormed(v)
    ensures WellFormed(Mirror(v)) && Equivalent(v, Mirror(v))
  {
    match v {
      case Array(items) =>
        forall i | 0 <= i < |items| ensures WellFormed(Mirror(items[i])) && Equivalent(items[i], Mirror(items[i])) {
          MirrorIsEquivalent(items[i]);
        }
      case Object(fields) =>
        var mirrored := Mirror(v).fields;
        forall i | 0 <= i < |fields|
          ensures WellFormed(Mirror(fields[i].value)) && Equivalent(fields[i].value, Mirror(fields[i].value))
        {
          MirrorIsEquivalent(fields[i].value);
        }
        MirroredKeys(fields, mirrored);
      case _ =>
    }
  }

  lemma MirroredKeys(fields: seq<Field>, mirrored: seq<Field>)
    requires |mirrored| == |fields|
    requires forall i :: 0 <= i < |fields| ==> mirrored[i].key == fields[|fields| - 1 - i].key
    ensures KeysOf(mirrored) == KeysOf(fields)
    ensures UniqueKeys(fields) ==> UniqueKeys(mirrored)
  {
    var n := |fields|;
    forall f | f in fields ensures f.key in KeysOf(mirrored) {
      var i :| 0 <= i < n && fields[i] == f;
      assert mirrored[n - 1 - i] in mirrored;
    }
    forall f | f in mirrored ensures f.key in KeysOf(fields) {
      var i :| 0 <= i < n && mirrored[i] == f;
      assert fields[n - 1 - i] in fields;
    }
  }

  /** Of two tied entries the one that stands earlier is sorted earlier. */
  lemma TiedStayInOrder(fields: seq<Field>, i: nat, j: nat, p: nat, q: nat)
    requires UniqueKeys(fields) && i < j < |fields|
    requires !ByKey(fields[i], fields[j]) && !ByKey(fields[j], fields[i])
    requires p < |fields| && q < |fields| && SortedFields(fields)[p] == fields[i]
        && SortedFields(fields)[q] == fields[j]
    ensures p < q
  {
    SortedByPosition(fields);
    assert fields[i] in fields && fields[j] in fields;
    assert Position(fields, fields[i]) == i && Position(fields, fields[j]) == j;
  }

  lemma SortedAt(fields: seq<Field>, i: nat) returns (p: nat)
    requires i < |fields|
    ensures p < |fields| && SortedFields(fields)[p] == fields[i]
  {
    assert fields[i] in SortedFields(fields);
    p :| 0 <= p < |fields| && SortedFields(fields)[p] == fields[i];
  }

  /** If an object and its mirror image sort to the same keys, no keys are tied and equal keys meet. */
  lemma MirrorMeets(fields: seq<Field>, mirrored: seq<Field>, i: nat, p: nat, m: nat)
    requires UniqueKeys(fields) && |mirrored| == |fields| && i < |fields|
    requires forall k :: 0 <= k < |fields| ==> mirrored[k].key == fields[|fields| - 1 - k].key
    requires KeyList(SortedFields(fields)) == KeyList(SortedFields(mirrored))
    requires p < |fields| && SortedFields(fields)[p] == fields[i]
    requires m < |fields| && SortedFields(mirrored)[m] == mirrored[|fields| - 1 - i]
    ensures p == m
  {
    SortKeepsUnique(fields);
    var keys := KeyList(SortedFields(fields));
    assert keys[p] == fields[i].key == KeyList(SortedFields(mirrored))[m] == keys[m];
    assert SortedFields(fields)[p].key == SortedFields(fields)[m].key;
  }

  lemma MirrorUntied(fields: seq<Field>, mirrored: seq<Field>)
    requires UniqueKeys(fields) && |mirrored| == |fields|
    requires forall i :: 0 <= i < |fields| ==> mirrored[i].key == fields[|fields| - 1 - i].key
    requires KeyList(SortedFields(fields)) == KeyList(SortedFields(mirrored))
    ensures Untied(fields)
  {
    hide StableSort;
    var n := |fields|;
    MirroredKeys(fields, mirrored);
    forall i, j | 0 <= i < j < n ensures ByKey(fields[i], fields[j]) || ByKey(fields[j], fields[i]) {
      if !ByKey(fields[i], fields[j]) && !ByKey(fields[j], fields[i]) {
        var p := SortedAt(fields, i);
        var q := SortedAt(fields, j);
        var p' := SortedAt(mirrored, n - 1 - i);
        var q' := SortedAt(mirrored, n - 1 - j);
        TiedStayInOrder(fields, i, j, p, q);
        TiedStayInOrder(mirrored, n - 1 - j, n - 1 - i, q', p');
        MirrorMeets(fields, mirrored, i, p, p');
        MirrorMeets(fields, mirrored, j, q, q');
        assert false;
      }
    }
  }

  /** A value whose mirror image has the same form has no tied keys anywhere. */
  lemma {:induction false} MirrorFormSeparates(v: Json)
    requires WellFormed(v) && SortValue(v) == SortValue(Mirror(v))
    ensures Separated(v)
  {
    hide StableSort, Equivalent;
    match v {
      case Array(items) =>
        var mirrored := Mirror(v).items;
        assert SortItems(items, v) == SortItems(mirrored, Mirror(v));
        forall i | 0 <= i < |items| ensures Separated(items[i]) {
          assert SortItems(items, v)[i] == SortValue(items[i])
              && SortItems(mirrored, Mirror(v))[i] == SortValue(mirrored[i]);
          MirrorFormSeparates(items[i]);
        }
      case Object(fields) =>
        FormsAgree(v, Mirror(v));
        MirrorUntied(fields, Mirror(v).fields);
        forall i | 0 <= i < |fields| ensures Separated(fields[i].value) {
          MirroredValueForm(v, Mirror(v), i);
          MirrorFormSeparates(fields[i].value);
        }
      case _ =>
    }
  }

  /** Objects of one form, the second listing the first's keys backwards, agree at each key. */
  lemma MirroredValueForm(v: Json, w: Json, i: nat)
    requires v.Object? && w.Object? && SortValue(v) == SortValue(w)
    requires UniqueKeys(v.fields) && |w.fields| == |v.fields| && i < |v.fields|
    requires forall k :: 0 <= k < |v.fields| ==> w.fields[k].key == v.fields[|v.fields| - 1 - k].key
    ensures SortValue(v.fields[i].value) == SortValue(w.fields[|v.fields| - 1 - i].value)
  {
    hide StableSort, SortValue;
    var n := |v.fields|;
    FormsAgree(v, w);
    var p := SortedAt(v.fields, i);
    var m := SortedAt(w.fields, n - 1 - i);
    MirrorMeets(v.fields, w.fields, i, p, m);
  }

  lemma FormsAgree(v: Json, w: Json)
    requires v.Object? && w.Object? && SortValue(v) == SortValue(w)
    ensures |w.fields| == |v.fields|
    ensures KeyList(SortedFields(v.fields)) == KeyList(SortedFields(w.fields))
    ensures forall p :: 0 <= p < |v.fields| ==>
              SortValue(SortedFields(v.fields)[p].value) == SortValue(SortedFields(w.fields)[p].value)
  {
    hide StableSort;
    SortedFieldsAreSmaller(v);
    SortedFieldsAreSmaller(w);
    var left, right := SortEntries(SortedFields(v.fields), v), SortEntries(SortedFields(w.fields), w);
    assert left == right;
    assert forall p :: 0 <= p < |left| ==> left[p] == right[p];
  }

  /** Every value equal to this one up to the order of entries has the same form. */
  ghost predicate FormIgnoresOrder(v: Json) {
    forall w :: WellFormed(w) && Equivalent(v, w) ==> SortValue(w) == SortValue(v)
  }

  /** The form ignores the order of entries exactly when no two keys of an object tie. */
  lemma FormIgnoresOrderIff(v: Json)
    requires WellFormed(v)
    ensures FormIgnoresOrder(v) <==> Separated(v)
  {
    hide SortValue, Separated;
    if Separated(v) {
      forall w | WellFormed(w) && Equivalent(v, w) ensures SortValue(w) == SortValue(v) {
        CanonicalForm(v, w);
      }
    }
    if FormIgnoresOrder(v) {
      MirrorIsEquivalent(v);
      MirrorFormSeparates(v);
    }
  }

  // ---------- idempotent ----------

  lemma {:induction false} SortOfOrdered(fields: seq<Field>)
    requires forall i, j :: 0 <= i < j < |fields| ==> !ByKey(fields[j], fields[i])
    ensures StableSort(ByKey, fields) == fields
  {
    if fields != [] {
      SortOfOrdered(fields[1..]);
      assert fields == [fields[0]] + fields[1..];
    }
  }

  lemma {:induction false} SortIsOrdered(fields: seq<Field>)
    ensures forall i, j :: 0 <= i < j < |fields| ==> !ByKey(StableSort(ByKey, fields)[j], StableSort(ByKey, fields)[i])
  {
    if fields != [] {
      SortIsOrdered(fields[1..]);
      InsertIsOrdered(fields[0], StableSort(ByKey, fields[1..]));
    }
  }

  lemma {:induction false} InsertIsOrdered(x: Field, ys: seq<Field>)
    requires forall i, j :: 0 <= i < j < |ys| ==> !ByKey(ys[j], ys[i])
    ensures forall i, j :: 0 <= i < j <= |ys| ==> !ByKey(Insert(ByKey, x, ys)[j], Insert(ByKey, x, ys)[i])
  {
    if ys != [] && ByKey(ys[0], x) {
      var rest := Insert(ByKey, x, ys[1..]);
      InsertIsOrdered(x, ys[1..]);
      forall j | 0 <= j < |rest| ensures !ByKey(rest[j], ys[0]) {
        assert rest[j] in rest;
        InsertedMember(ByKey, x, ys[1..], rest[j]);
        if rest[j] in ys[1..] {
          var i :| 0 <= i < |ys[1..]| && ys[1..][i] == rest[j];
          assert ys[i + 1] == rest[j];
        }
      }
    }
  }

  /** No key of an object stands behind one that the locale puts after it, at any depth. */
  ghost predicate InOrder(value: Json) {
    match value
    case Array(items) => forall i :: 0 <= i < |items| ==> InOrder(items[i])
    case Object(fields) =>
      && (forall i, j :: 0 <= i < j < |fields| ==> !LOCALE_ORDER(fields[j].key, fields[i].key))
      && forall i :: 0 <= i < |fields| ==> InOrder(fields[i].value)
    case _ => true
  }

  /** The canonical form is the value itself but for the order of entries, and has its keys in order. */
  lemma {:induction false} FormOrdersEntries(value: Json)
    requires WellFormed(value)
    ensures WellFormed(SortValue(value)) && Equivalent(value, SortValue(value)) && InOrder(SortValue(value))
  {
    match value {
      case Array(items) =>
        forall i | 0 <= i < |items|
          ensures WellFormed(SortValue(items[i])) && Equivalent(items[i], SortValue(items[i]))
              && InOrder(SortValue(items[i]))
        {
          FormOrdersEntries(items[i]);
        }
      case Object(fields) =>
        forall f | f in fields
          ensures WellFormed(SortValue(f.value)) && Equivalent(f.value, SortValue(f.value))
              && InOrder(SortValue(f.value))
        {
          FormOrdersEntries(f.value);
        }
        FormOrdersFields(value);
      case _ =>
    }
  }

  /** The values of all entries have sound forms. */
  ghost predicate FormsSound(fields: seq<Field>) {
    forall f :: f in fields ==>
      WellFormed(SortValue(f.value)) && Equivalent(f.value, SortValue(f.value)) && InOrder(SortValue(f.value))
  }

  lemma FormOrdersFields(value: Json)
    requires value.Object? && WellFormed(value) && FormsSound(value.fields)
    ensures WellFormed(SortValue(value)) && Equivalent(value, SortValue(value)) && InOrder(SortValue(value))
  {
    hide StableSort, FormsSound;
    var sorted := SortedFields(value.fields);
    SortedFieldsAreSmaller(value);
    var form := SortEntries(sorted, value);
    assert SortValue(value) == Object(form);
    FormIsSound(value.fields, form);
    FormIsOrdered(value.fields, form);
    FormIsEquivalent(value.fields, form);
  }

  lemma FormIsSound(fields: seq<Field>, form: seq<Field>)
    requires UniqueKeys(fields) && FormsSound(fields) && IsForm(form, SortedFields(fields))
    ensures UniqueKeys(form)
    ensures forall i :: 0 <= i < |form| ==> WellFormed(form[i].value) && InOrder(form[i].value)
  {
    hide StableSort, Equivalent, SortValue, WellFormed, InOrder;
    SortKeepsUnique(fields);
    var sorted := SortedFields(fields);
    forall i | 0 <= i < |form| ensures WellFormed(form[i].value) && InOrder(form[i].value) {
      assert sorted[i] in sorted && sorted[i] in fields;
    }
  }

  lemma FormIsOrdered(fields: seq<Field>, form: seq<Field>)
    requires IsForm(form, SortedFields(fields))
    ensures forall i, j :: 0 <= i < j < |form| ==> !LOCALE_ORDER(form[j].key, form[i].key)
  {
    hide StableSort, SortValue;
    SortIsOrdered(fields);
    var sorted := SortedFields(fields);
    forall i, j | 0 <= i < j < |form| ensures !LOCALE_ORDER(form[j].key, form[i].key) {
      assert !ByKey(sorted[j], sorted[i]);
    }
  }

  lemma FormIsEquivalent(fields: seq<Field>, form: seq<Field>)
    requires UniqueKeys(fields) && FormsSound(fields) && IsForm(form, SortedFields(fields))
    ensures EquivalentFields(fields, form)
  {
    hide StableSort, Equivalent, SortValue, WellFormed, InOrder;
    var sorted := SortedFields(fields);
    SortedKeys(fields);
    assert KeyList(form) == KeyList(sorted);
    forall k ensures k in KeysOf(fields) <==> k in KeysOf(form) {
      KeyListMembers(form, k);
      KeyListMembers(sorted, k);
    }
    forall i, j | 0 <= i < |fields| && 0 <= j < |form| && fields[i].key == form[j].key
      ensures Equivalent(fields[i].value, form[j].value)
    {
      assert sorted[j] in sorted && sorted[j] in fields;
      var p :| 0 <= p < |fields| && fields[p] == sorted[j];
      assert fields[p].key == fields[i].key;
    }
  }

  lemma {:induction false} SortIdempotent(value: Json)
    ensures SortValue(SortValue(value)) == SortValue(value)
  {
    match value {
      case Array(items) =>
        var once := SortItems(items, value);
        forall i | 0 <= i < |items| ensures SortValue(once[i]) == once[i] {
          SortIdempotent(items[i]);
        }
        assert SortItems(once, Array(once)) == once;
      case Object(fields) =>
        var sorted := SortedFields(fields);
        SortedFieldsAreSmaller(value);
        var once := SortEntries(sorted, value);
        SortIsOrdered(fields);
        SortOfOrdered(once);
        forall i | 0 <= i < |once| ensures SortValue(once[i].value) == once[i].value {
          assert sorted[i] in fields;
          SortIdempotent(sorted[i].value);
        }
        assert SortEntries(once, Object(once)) == once;
      case _ =>
    }
  }
}
