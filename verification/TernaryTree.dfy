/**
  Ternary search trees as values: the shapes that the arena of `TernaryTrie`
  stands for, and the theory that makes them ordered maps.
 */
module TernaryTree {
  import opened Wrappers
  import Sorting

  datatype Tree =
    | Leaf
    | Branch(ch: char, lo: Tree, eq: Tree, hi: Tree, posting: Option<string>)

  datatype Entry = Entry(key: string, id: string)

  // ---------- operations ----------

  function Insert(t: Tree, key: string, id: string): (r: Tree)
    requires key != ""
    ensures r.Branch?
    decreases |key|, t
  {
    var node := if t.Leaf? then Branch(key[0], Leaf, Leaf, Leaf, None) else t;
    if key[0] < node.ch then node.(lo := Insert(node.lo, key, id))
    else if key[0] > node.ch then node.(hi := Insert(node.hi, key, id))
    else if |key| == 1 then node.(posting := Some(id))
    else node.(eq := Insert(node.eq, key[1..], id))
  }

  /** The branch a key leads to, or a leaf. */
  function Find(t: Tree, key: string): Tree
    requires key != ""
    decreases |key|, t
  {
    if t.Leaf? then Leaf
    else if key[0] < t.ch then Find(t.lo, key)
    else if key[0] > t.ch then Find(t.hi, key)
    else if |key| == 1 then t
    else Find(t.eq, key[1..])
  }

  function Lookup(t: Tree, key: string): Option<string>
    requires key != ""
  {
    var node := Find(t, key);
    if node.Leaf? then None else node.posting
  }

  function Prepend(prefix: string, entries: seq<Entry>): (r: seq<Entry>)
    ensures |r| == |entries|
  {
    seq(|entries|, i requires 0 <= i < |entries| => Entry(prefix + entries[i].key, entries[i].id))
  }

  function PostingEntry(key: string, posting: Option<string>): seq<Entry> {
    if posting.Some? then [Entry(key, posting.value)] else []
  }

  /** All entries in the order of the in-order walk. */
  function Entries(t: Tree): seq<Entry> {
    match t
    case Leaf => []
    case Branch(ch, lo, eq, hi, posting) =>
      Entries(lo) + (PostingEntry([ch], posting) + Prepend([ch], Entries(eq))) + Entries(hi)
  }

  function Ids(entries: seq<Entry>): (ids: seq<string>)
    ensures |ids| == |entries|
  {
    seq(|entries|, i requires 0 <= i < |entries| => entries[i].id)
  }

  function Size(t: Tree): nat {
    match t
    case Leaf => 0
    case Branch(_, lo, eq, hi, _) => 1 + Size(lo) + Size(eq) + Size(hi)
  }

  // ---------- order ----------

  /** Lexicographic order by character, a proper prefix first. */
  predicate Less(a: string, b: string) {
    b != "" && (a == "" || a[0] < b[0] || (a[0] == b[0] && Less(a[1..], b[1..])))
  }

  ghost predicate SortedKeys(keys: seq<string>) {
    Sorting.StrictlyOrdered(Less, keys)
  }

  ghost predicate Sorted(entries: seq<Entry>) {
    forall i, j :: 0 <= i < j < |entries| ==> Less(entries[i].key, entries[j].key)
  }

  /** The characters met along the lo and hi links from a node. */
  ghost function Level(t: Tree): set<char> {
    match t
    case Leaf => {}
    case Branch(ch, lo, _, hi, _) => Level(lo) + {ch} + Level(hi)
  }

  ghost predicate Ordered(t: Tree) {
    match t
    case Leaf => true
    case Branch(ch, lo, eq, hi, _) =>
      && Ordered(lo) && Ordered(eq) && Ordered(hi)
      && (forall c :: c in Level(lo) ==> c < ch)
      && (forall c :: c in Level(hi) ==> ch < c)
  }

  lemma {:induction false} LessPrepend(p: string, a: string, b: string)
    ensures Less(p + a, p + b) <==> Less(a, b)
  {
    if p == "" {
      assert p + a == a && p + b == b;
    } else {
      assert (p + a)[1..] == p[1..] + a && (p + b)[1..] == p[1..] + b;
      LessPrepend(p[1..], a, b);
    }
  }

  lemma {:induction false} LessIsTotalOrder(a: string, b: string, c: string)
    ensures !Less(a, a)
    ensures Less(a, b) || Less(b, a) || a == b
    ensures Less(a, b) && Less(b, c) ==> Less(a, c)
    decreases |a| + |b| + |c|
  {
    if a != "" && b != "" && c != "" {
      LessIsTotalOrder(a[1..], b[1..], c[1..]);
      if a[0] == b[0] && a[1..] == b[1..] {
        assert a == [a[0]] + a[1..] && b == [b[0]] + b[1..];
      }
    } else if a != "" && b != "" {
      LessIsTotalOrder(a[1..], b[1..], c);
      if a[0] == b[0] && a[1..] == b[1..] {
        assert a == [a[0]] + a[1..] && b == [b[0]] + b[1..];
      }
    } else if a != "" {
      LessIsTotalOrder(a[1..], b, c);
    }
  }

  lemma LessIsStrict()
    ensures Sorting.IsStrictWeakOrder(Less)
  {
    forall a, b, c
      ensures !Less(a, a)
      ensures Less(a, b) && Less(b, c) ==> Less(a, c)
      ensures Less(a, c) ==> Less(a, b) || Less(b, c)
    {
      LessIsTotalOrder(a, b, c);
      LessIsTotalOrder(b, a, c);
      LessIsTotalOrder(c, b, a);
      LessIsTotalOrder(a, c, b);
    }
  }

  /** A sorted list of keys is determined by its set of keys. */
  lemma SortedKeysUnique(left: seq<string>, right: seq<string>)
    requires SortedKeys(left) && SortedKeys(right)
    requires forall k :: k in left <==> k in right
    ensures left == right
  {
    LessIsStrict();
    Sorting.ArrangementUnique(Less, left, right);
  }

  // ---------- insertion is map update ----------

  lemma {:induction false} LookupAfterInsert(t: Tree, key: string, id: string, other: string)
    requires key != "" && other != ""
    ensures Lookup(Insert(t, key, id), other) == if other == key then Some(id) else Lookup(t, other)
    decreases |key|, t
  {
    var node := if t.Leaf? then Branch(key[0], Leaf, Leaf, Leaf, None) else t;
    if key[0] < node.ch {
      LookupAfterInsert(node.lo, key, id, other);
    } else if key[0] > node.ch {
      LookupAfterInsert(node.hi, key, id, other);
    } else if |key| > 1 {
      if |other| > 1 && other[0] == node.ch {
        LookupAfterInsert(node.eq, key[1..], id, other[1..]);
        assert other == [other[0]] + other[1..] && key == [key[0]] + key[1..];
      }
    } else if |other| == 1 && other[0] == key[0] {
      assert other == key;
    } else {
      assert other != key;
      assert Insert(t, key, id) == node.(posting := Some(id));
      if other[0] == node.ch {
        assert Find(Insert(t, key, id), other) == Find(node.eq, other[1..]);
      }
    }
  }

  lemma {:induction false} InsertKeepsOrdered(t: Tree, key: string, id: string)
    requires key != "" && Ordered(t)
    ensures Ordered(Insert(t, key, id))
    ensures Level(Insert(t, key, id)) == Level(t) + {key[0]}
    decreases |key|, t
  {
    var node := if t.Leaf? then Branch(key[0], Leaf, Leaf, Leaf, None) else t;
    if key[0] < node.ch {
      InsertKeepsOrdered(node.lo, key, id);
    } else if key[0] > node.ch {
      InsertKeepsOrdered(node.hi, key, id);
    } else if |key| > 1 {
      InsertKeepsOrdered(node.eq, key[1..], id);
    }
  }

  // ---------- the walk lists the map in lexicographic order ----------

  lemma {:induction false} EntryHeads(t: Tree)
    ensures forall e :: e in Entries(t) ==> e.key != "" && e.key[0] in Level(t)
  {
    if t.Branch? {
      EntryHeads(t.lo);
      EntryHeads(t.hi);
    }
  }

  lemma PrependMembers(prefix: string, entries: seq<Entry>, rest: string, id: string)
    ensures Entry(prefix + rest, id) in Prepend(prefix, entries) <==> Entry(rest, id) in entries
  {
    var all := Prepend(prefix, entries);
    if Entry(rest, id) in entries {
      var i :| 0 <= i < |entries| && entries[i] == Entry(rest, id);
      assert all[i] == Entry(prefix + rest, id);
    }
    if Entry(prefix + rest, id) in all {
      var i :| 0 <= i < |all| && all[i] == Entry(prefix + rest, id);
      assert entries[i].key == (prefix + entries[i].key)[|prefix|..] == (prefix + rest)[|prefix|..] == rest;
    }
  }

  /** The walk lists exactly the pairs that lookup answers. */
  lemma {:induction false} EntriesAreLookups(t: Tree, key: string, id: string)
    requires Ordered(t) && key != ""
    ensures Entry(key, id) in Entries(t) <==> Lookup(t, key) == Some(id)
    decreases |key|, t
  {
    if t.Branch? {
      EntryHeads(t.lo);
      EntryHeads(t.hi);
      EntryHeads(t.eq);
      var e := Entry(key, id);
      assert e in Entries(t) <==>
             e in Entries(t.lo) || e in PostingEntry([t.ch], t.posting) || e in Prepend([t.ch], Entries(t.eq))
                 || e in Entries(t.hi);
      if key[0] < t.ch {
        EntriesAreLookups(t.lo, key, id);
      } else if key[0] > t.ch {
        EntriesAreLookups(t.hi, key, id);
      } else {
        assert key == [t.ch] + key[1..];
        PrependMembers([t.ch], Entries(t.eq), key[1..], id);
        if |key| > 1 {
          EntriesAreLookups(t.eq, key[1..], id);
          assert key != [t.ch];
        } else {
          assert key == [t.ch];
          assert Entry("", id) !in Entries(t.eq);
        }
      }
    }
  }

  lemma PrependSorted(prefix: string, entries: seq<Entry>)
    requires Sorted(entries)
    ensures Sorted(Prepend(prefix, entries))
  {
    forall i, j | 0 <= i < j < |entries|
      ensures Less(prefix + entries[i].key, prefix + entries[j].key)
    {
      LessPrepend(prefix, entries[i].key, entries[j].key);
    }
  }

  lemma SortedConcat(a: seq<Entry>, b: seq<Entry>)
    requires Sorted(a) && Sorted(b)
    requires forall x, y :: x in a && y in b ==> Less(x.key, y.key)
    ensures Sorted(a + b)
  {
  }

  /** An own posting followed by the entries below it. */
  lemma PostingFirst(prefix: string, posting: Option<string>, entries: seq<Entry>)
    requires Sorted(entries)
    requires forall e :: e in entries ==> e.key != ""
    ensures Sorted(PostingEntry(prefix, posting) + Prepend(prefix, entries))
  {
    PrependSorted(prefix, entries);
    forall y | y in Prepend(prefix, entries) ensures Less(prefix, y.key) {
      var i :| 0 <= i < |entries| && y == Entry(prefix + entries[i].key, entries[i].id);
      assert entries[i] in entries;
      assert prefix + "" == prefix;
      LessPrepend(prefix, "", entries[i].key);
    }
    SortedConcat(PostingEntry(prefix, posting), Prepend(prefix, entries));
  }

  lemma {:induction false} EntriesSorted(t: Tree)
    requires Ordered(t)
    ensures Sorted(Entries(t))
  {
    if t.Branch? {
      EntriesSorted(t.lo);
      EntriesSorted(t.eq);
      EntriesSorted(t.hi);
      EntryHeads(t.lo);
      EntryHeads(t.eq);
      EntryHeads(t.hi);
      var middle := PostingEntry([t.ch], t.posting) + Prepend([t.ch], Entries(t.eq));
      PostingFirst([t.ch], t.posting, Entries(t.eq));
      assert forall e :: e in middle ==> e.key != "" && e.key[0] == t.ch;
      SortedConcat(Entries(t.lo), middle);
      SortedConcat(Entries(t.lo) + middle, Entries(t.hi));
    }
  }

  // ---------- the keys below a prefix ----------

  /** The entries whose key starts with `prefix`, as the prefix search walks them. */
  function Below(t: Tree, prefix: string): seq<Entry>
    requires prefix != ""
  {
    var node := Find(t, prefix);
    if node.Leaf? then [] else PostingEntry(prefix, node.posting) + Prepend(prefix, Entries(node.eq))
  }

  lemma {:induction false} FindKeepsOrdered(t: Tree, key: string)
    requires key != "" && Ordered(t)
    ensures Ordered(Find(t, key))
    decreases |key|, t
  {
    if t.Branch? {
      if key[0] < t.ch {
        FindKeepsOrdered(t.lo, key);
      } else if key[0] > t.ch {
        FindKeepsOrdered(t.hi, key);
      } else if |key| > 1 {
        FindKeepsOrdered(t.eq, key[1..]);
      }
    }
  }

  lemma {:induction false} FindSplits(t: Tree, prefix: string, rest: string)
    requires prefix != "" && rest != ""
    ensures var node := Find(t, prefix);
            Find(t, prefix + rest) == if node.Leaf? then Leaf else Find(node.eq, rest)
    decreases |prefix|, t
  {
    if t.Branch? {
      if prefix[0] < t.ch {
        FindSplits(t.lo, prefix, rest);
      } else if prefix[0] > t.ch {
        FindSplits(t.hi, prefix, rest);
      } else if |prefix| > 1 {
        assert (prefix + rest)[1..] == prefix[1..] + rest;
        FindSplits(t.eq, prefix[1..], rest);
      } else {
        assert (prefix + rest)[1..] == rest;
      }
    }
  }

  /** The prefix walk is sorted and lists exactly the stored keys that start with the prefix. */
  lemma BelowIsPrefixRange(t: Tree, prefix: string)
    requires prefix != "" && Ordered(t)
    ensures Sorted(Below(t, prefix))
    ensures forall e :: e in Below(t, prefix) <==> prefix <= e.key && Lookup(t, e.key) == Some(e.id)
  {
    var node := Find(t, prefix);
    FindKeepsOrdered(t, prefix);
    if node.Branch? {
      EntriesSorted(node.eq);
      EntryHeads(node.eq);
      PostingFirst(prefix, node.posting, Entries(node.eq));
    }
    forall e: Entry
      ensures e in Below(t, prefix) <==> prefix <= e.key && Lookup(t, e.key) == Some(e.id)
    {
      if prefix <= e.key {
        var rest := e.key[|prefix|..];
        assert e.key == prefix + rest;
        if node.Branch? {
          PrependMembers(prefix, Entries(node.eq), rest, e.id);
        }
        if rest == "" {
          assert e.key == prefix;
        } else {
          FindSplits(t, prefix, rest);
          if node.Branch? {
            EntriesAreLookups(node.eq, rest, e.id);
          }
        }
      }
    }
  }

  // ---------- nodes are prefixes ----------

  ghost function Prefixes(key: string): set<string> {
    set n | 1 <= n <= |key| :: key[..n]
  }

  /** The non-empty prefixes of a set of keys. */
  ghost function PrefixesOf(keys: set<string>): set<string> {
    set k, p | k in keys && p in Prefixes(k) :: p
  }

  ghost function Under(ch: char, paths: set<string>): set<string> {
    set p | p in paths :: [ch] + p
  }

  /** The text spelled on the way to each node. */
  ghost function Paths(t: Tree): set<string> {
    match t
    case Leaf => {}
    case Branch(ch, lo, eq, hi, _) => Paths(lo) + ({[ch]} + Under(ch, Paths(eq))) + Paths(hi)
  }

  lemma {:induction false} PathHeads(t: Tree)
    ensures forall p :: p in Paths(t) ==> p != "" && p[0] in Level(t)
  {
    if t.Branch? {
      PathHeads(t.lo);
      PathHeads(t.hi);
    }
  }

  lemma {:induction false} UnderSize(ch: char, paths: set<string>)
    ensures |Under(ch, paths)| == |paths|
    decreases |paths|
  {
    if paths != {} {
      var p :| p in paths;
      UnderSize(ch, paths - {p});
      assert Under(ch, paths) == Under(ch, paths - {p}) + {[ch] + p};
      assert [ch] + p !in Under(ch, paths - {p}) by {
        forall q | q in paths - {p} ensures [ch] + q != [ch] + p {
          assert ([ch] + q)[1..] == q && ([ch] + p)[1..] == p;
        }
      }
    }
  }

  lemma {:induction false} SizeIsPaths(t: Tree)
    requires Ordered(t)
    ensures Size(t) == |Paths(t)|
  {
    if t.Branch? {
      SizeIsPaths(t.lo);
      SizeIsPaths(t.eq);
      SizeIsPaths(t.hi);
      PathHeads(t.lo);
      PathHeads(t.eq);
      PathHeads(t.hi);
      UnderSize(t.ch, Paths(t.eq));
      var middle := {[t.ch]} + Under(t.ch, Paths(t.eq));
      assert [t.ch] !in Under(t.ch, Paths(t.eq));
      assert |middle| == 1 + |Paths(t.eq)|;
      DisjointUnionSize(Paths(t.lo), middle, Paths(t.hi));
    }
  }

  lemma DisjointUnionSize<T>(a: set<T>, b: set<T>, c: set<T>)
    requires a !! b && a !! c && b !! c
    ensures |a + b + c| == |a| + |b| + |c|
  {
    assert |a + b| == |a| + |b|;
  }

  lemma PrefixesOfCons(key: string)
    requires key != ""
    ensures Prefixes(key) == {[key[0]]} + Under(key[0], Prefixes(key[1..]))
  {
    forall p | p in Prefixes(key)
      ensures p == [key[0]] || p in Under(key[0], Prefixes(key[1..]))
    {
      var n :| 1 <= n <= |key| && p == key[..n];
      if n > 1 {
        assert key[1..][..n - 1] in Prefixes(key[1..]);
        assert p == [key[0]] + key[1..][..n - 1];
      } else {
        assert p == [key[0]];
      }
    }
    forall p | p in Under(key[0], Prefixes(key[1..])) ensures p in Prefixes(key) {
      var n :| 1 <= n <= |key[1..]| && p == [key[0]] + key[1..][..n];
      assert p == key[..n + 1];
    }
    assert key[..1] == [key[0]];
  }

  lemma {:induction false} PathsAfterInsert(t: Tree, key: string, id: string)
    requires key != ""
    ensures Paths(Insert(t, key, id)) == Paths(t) + Prefixes(key)
    decreases |key|, t
  {
    var node := if t.Leaf? then Branch(key[0], Leaf, Leaf, Leaf, None) else t;
    if key[0] < node.ch {
      PathsAfterInsert(node.lo, key, id);
    } else if key[0] > node.ch {
      PathsAfterInsert(node.hi, key, id);
    } else {
      PrefixesOfCons(key);
      if |key| == 1 {
        assert Prefixes(key[1..]) == {};
      } else {
        PathsAfterInsert(node.eq, key[1..], id);
        assert Under(node.ch, Paths(node.eq) + Prefixes(key[1..]))
            == Under(node.ch, Paths(node.eq)) + Under(node.ch, Prefixes(key[1..]));
      }
    }
  }
}
