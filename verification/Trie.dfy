/**
  The arena trie (crates/tst-core/src/trie.rs): a growing vector of nodes whose
  links are indices into the vector, written in place. `Shape` reads the tree
  that hangs from a link; `Valid` says that links only ever point to later
  nodes, that no node is shared, that every node is in use and that the tree is
  the ordered map `contents`.
 */
module Trie {
  import opened Wrappers
  import opened Memory
  import opened TernaryTree

  datatype Node = Node(ch: char, lo: Option<nat>, eq: Option<nat>, hi: Option<nat>, posting: Option<string>)

  // ---------- reading an arena ----------

  /** A link that leaves node `from` of an arena of `count` nodes. */
  predicate Forward(link: Option<nat>, from: int, count: nat) {
    link.Some? ==> from < link.value < count
  }

  predicate Arena(nodes: seq<Node>) {
    forall i :: 0 <= i < |nodes| ==>
                  && Forward(nodes[i].lo, i, |nodes|)
                  && Forward(nodes[i].eq, i, |nodes|)
                  && Forward(nodes[i].hi, i, |nodes|)
  }

  function Remaining(nodes: seq<Node>, link: Option<nat>): nat
    requires Forward(link, -1, |nodes|)
  {
    if link.None? then 0 else |nodes| - link.value
  }

  ghost function Shape(nodes: seq<Node>, link: Option<nat>): Tree
    requires Arena(nodes) && Forward(link, -1, |nodes|)
    decreases Remaining(nodes, link)
  {
    if link.None? then Leaf
    else
      var node := nodes[link.value];
      Branch(node.ch, Shape(nodes, node.lo), Shape(nodes, node.eq), Shape(nodes, node.hi), node.posting)
  }

  /** The indices that can be reached from a link. */
  ghost function Footprint(nodes: seq<Node>, link: Option<nat>): (indices: set<nat>)
    requires Arena(nodes) && Forward(link, -1, |nodes|)
    ensures link.Some? ==> link.value in indices
    ensures forall i :: i in indices ==> link.Some? && link.value <= i < |nodes|
    decreases Remaining(nodes, link)
  {
    if link.None? then {}
    else
      var node := nodes[link.value];
      {link.value} + Footprint(nodes, node.lo) + Footprint(nodes, node.eq) + Footprint(nodes, node.hi)
  }

  /** No node is reached along two ways. */
  ghost predicate Separate(nodes: seq<Node>, link: Option<nat>)
    requires Arena(nodes) && Forward(link, -1, |nodes|)
    decreases Remaining(nodes, link)
  {
    link.Some? ==>
      var node := nodes[link.value];
      && Separate(nodes, node.lo) && Separate(nodes, node.eq) && Separate(nodes, node.hi)
      && Footprint(nodes, node.lo) !! Footprint(nodes, node.eq)
      && Footprint(nodes, node.lo) !! Footprint(nodes, node.hi)
      && Footprint(nodes, node.eq) !! Footprint(nodes, node.hi)
  }

  /** Two arenas that agree on what a link reaches read the same from it. */
  lemma {:induction false} ShapeFrame(nodes: seq<Node>, later: seq<Node>, link: Option<nat>)
    requires Arena(nodes) && Arena(later) && |nodes| <= |later|
    requires Forward(link, -1, |nodes|)
    requires forall i :: i in Footprint(nodes, link) ==> later[i] == nodes[i]
    ensures Shape(later, link) == Shape(nodes, link)
    ensures Footprint(later, link) == Footprint(nodes, link)
    ensures Separate(later, link) == Separate(nodes, link)
    decreases Remaining(nodes, link)
  {
    if link.Some? {
      var node := nodes[link.value];
      assert later[link.value] == node;
      ShapeFrame(nodes, later, node.lo);
      ShapeFrame(nodes, later, node.eq);
      ShapeFrame(nodes, later, node.hi);
    }
  }

  /** The three links lead to later nodes, to separate trees that share nothing. */
  ghost predicate Children(nodes: seq<Node>, index: nat, node: Node)
    requires Arena(nodes)
  {
    && Forward(node.lo, index, |nodes|) && Forward(node.eq, index, |nodes|) && Forward(node.hi, index, |nodes|)
    && Separate(nodes, node.lo) && Separate(nodes, node.eq) && Separate(nodes, node.hi)
    && Footprint(nodes, node.lo) !! Footprint(nodes, node.eq)
    && Footprint(nodes, node.lo) !! Footprint(nodes, node.hi)
    && Footprint(nodes, node.eq) !! Footprint(nodes, node.hi)
  }

  /** Writing one node does not concern what hangs from later links. */
  lemma LaterKept(nodes: seq<Node>, index: nat, node: Node, link: Option<nat>)
    requires Arena(nodes) && index < |nodes| && Children(nodes, index, node) && Forward(link, index, |nodes|)
    ensures Arena(nodes[index := node])
    ensures Shape(nodes[index := node], link) == Shape(nodes, link)
    ensures Footprint(nodes[index := node], link) == Footprint(nodes, link)
    ensures Separate(nodes[index := node], link) == Separate(nodes, link)
  {
    ShapeFrame(nodes, nodes[index := node], link);
  }

  /** Writing one node over children that are later and apart makes a separate tree of it. */
  lemma WriteNode(nodes: seq<Node>, index: nat, node: Node)
    requires Arena(nodes) && index < |nodes| && Children(nodes, index, node)
    ensures var later := nodes[index := node];
            && Arena(later) && Separate(later, Some(index))
            && Shape(later, Some(index))
               == Branch(node.ch, Shape(nodes, node.lo), Shape(nodes, node.eq), Shape(nodes, node.hi), node.posting)
            && Footprint(later, Some(index))
               == {index} + Footprint(nodes, node.lo) + Footprint(nodes, node.eq) + Footprint(nodes, node.hi)
  {
    LaterKept(nodes, index, node, node.lo);
    LaterKept(nodes, index, node, node.eq);
    LaterKept(nodes, index, node, node.hi);
  }

  ghost predicate Covers(indices: set<nat>, count: nat) {
    forall i: nat :: i in indices <==> i < count
  }

  lemma {:induction false} CoveringSize(indices: set<nat>, count: nat)
    requires Covers(indices, count)
    ensures |indices| == count
  {
    if count > 0 {
      CoveringSize(indices - {count - 1}, count - 1);
    } else {
      assert indices == {};
    }
  }

  lemma {:induction false} FootprintIsSize(nodes: seq<Node>, link: Option<nat>)
    requires Arena(nodes) && Forward(link, -1, |nodes|) && Separate(nodes, link)
    ensures |Footprint(nodes, link)| == Size(Shape(nodes, link))
    decreases Remaining(nodes, link)
  {
    if link.Some? {
      var node := nodes[link.value];
      FootprintIsSize(nodes, node.lo);
      FootprintIsSize(nodes, node.eq);
      FootprintIsSize(nodes, node.hi);
      var lo, eq, hi := Footprint(nodes, node.lo), Footprint(nodes, node.eq), Footprint(nodes, node.hi);
      assert link.value !in lo && link.value !in eq && link.value !in hi;
      RootedUnionSize(link.value, lo, eq, hi);
    }
  }

  lemma RootedUnionSize(root: nat, a: set<nat>, b: set<nat>, c: set<nat>)
    requires a !! b && a !! c && b !! c
    requires root !in a && root !in b && root !in c
    ensures |{root} + a + b + c| == 1 + |a| + |b| + |c|
  {
    DisjointUnionSize(a, b, c);
    assert {root} + a + b + c == {root} + (a + b + c);
  }

  // ---------- redirecting a link ----------

  datatype Side = Lo | Eq | Hi

  function LinkOf(node: Node, side: Side): Option<nat> {
    match side
    case Lo => node.lo
    case Eq => node.eq
    case Hi => node.hi
  }

  function WithLink(node: Node, side: Side, link: Option<nat>): Node {
    match side
    case Lo => node.(lo := link)
    case Eq => node.(eq := link)
    case Hi => node.(hi := link)
  }

  ghost function WithSubtree(t: Tree, side: Side, subtree: Tree): Tree
    requires t.Branch?
  {
    match side
    case Lo => t.(lo := subtree)
    case Eq => t.(eq := subtree)
    case Hi => t.(hi := subtree)
  }

  /** The indices a link reaches after a change are those it reached before and all that were pushed. */
  ghost predicate Grown(before: set<nat>, from: nat, after: set<nat>, count: nat) {
    forall i :: i in after <==> i in before || from <= i < count
  }

  ghost predicate UnchangedOutside(nodes: seq<Node>, later: seq<Node>, indices: set<nat>) {
    |nodes| <= |later| && forall i: nat :: i < |nodes| && i !in indices ==> later[i] == nodes[i]
  }

  /** Once the subtree on one side has been rebuilt, redirecting that one link rebuilds the whole tree. */
  lemma Relink(nodes: seq<Node>, deep: seq<Node>, index: nat, side: Side, next: nat)
    requires Arena(nodes) && index < |nodes| && Separate(nodes, Some(index))
    requires Arena(deep) && index < next < |deep| && Separate(deep, Some(next))
    requires UnchangedOutside(nodes, deep, Footprint(nodes, LinkOf(nodes[index], side)))
    requires Grown(Footprint(nodes, LinkOf(nodes[index], side)), |nodes|, Footprint(deep, Some(next)), |deep|)
    ensures var later := deep[index := WithLink(deep[index], side, Some(next))];
            && Arena(later) && Separate(later, Some(index))
            && Shape(later, Some(index)) == WithSubtree(Shape(nodes, Some(index)), side, Shape(deep, Some(next)))
            && Grown(Footprint(nodes, Some(index)), |nodes|, Footprint(later, Some(index)), |later|)
            && UnchangedOutside(nodes, later, Footprint(nodes, Some(index)))
  {
    var item := nodes[index];
    assert deep[index] == item;
    WriteNode(deep, index, WithLink(item, side, Some(next))) by {
      KeepSibling(nodes, deep, index, side, next, Lo);
      KeepSibling(nodes, deep, index, side, next, Eq);
      KeepSibling(nodes, deep, index, side, next, Hi);
    }
    KeepSibling(nodes, deep, index, side, next, Lo);
    KeepSibling(nodes, deep, index, side, next, Eq);
    KeepSibling(nodes, deep, index, side, next, Hi);
  }

  lemma KeepSibling(nodes: seq<Node>, deep: seq<Node>, index: nat, side: Side, next: nat, other: Side)
    requires Arena(nodes) && index < |nodes| && Separate(nodes, Some(index))
    requires Arena(deep) && index < next < |deep|
    requires UnchangedOutside(nodes, deep, Footprint(nodes, LinkOf(nodes[index], side)))
    requires Grown(Footprint(nodes, LinkOf(nodes[index], side)), |nodes|, Footprint(deep, Some(next)), |deep|)
    ensures other != side ==>
              var link := LinkOf(nodes[index], other);
              && Shape(deep, link) == Shape(nodes, link)
              && Footprint(deep, link) == Footprint(nodes, link)
              && Separate(deep, link)
              && Footprint(deep, link) !! Footprint(deep, Some(next))
  {
    if other != side {
      var link := LinkOf(nodes[index], other);
      assert Footprint(nodes, link) !! Footprint(nodes, LinkOf(nodes[index], side));
      ShapeFrame(nodes, deep, link);
    }
  }

  // ---------- the search ----------

  /** `find`: only termination needs the links to point forward. */
  function FindIndex(nodes: seq<Node>, link: Option<nat>, key: string): (found: Option<nat>)
    requires Arena(nodes) && Forward(link, -1, |nodes|) && key != ""
    ensures found.Some? ==> found.value < |nodes|
    ensures match found
            case None => Find(Shape(nodes, link), key).Leaf?
            case Some(index) => Find(Shape(nodes, link), key) == Shape(nodes, Some(index))
    decreases Remaining(nodes, link)
  {
    if link.None? then None
    else
      var item := nodes[link.value];
      if key[0] < item.ch then FindIndex(nodes, item.lo, key)
      else if key[0] > item.ch then FindIndex(nodes, item.hi, key)
      else if |key| == 1 then link
      else FindIndex(nodes, item.eq, key[1..])
  }

  // ---------- the trie ----------

  class TernaryTrie {
    var nodes: seq<Node>
    var root: Option<nat>
    ghost var contents: map<string, string>

    ghost predicate Valid()
      reads this
    {
      && Arena(nodes) && Forward(root, -1, |nodes|) && Separate(nodes, root)
      && Covers(Footprint(nodes, root), |nodes|)
      && Represents(Shape(nodes, root), contents)
    }

    constructor ()
      ensures Valid() && contents == map[]
    {
      nodes, root, contents := [], None, map[];
    }

    method Insert(key: string, canonicalId: string)
      requires Valid()
      modifies this
      ensures Valid()
      ensures contents == if NormalizeKey(key) == "" then old(contents)
                          else old(contents)[NormalizeKey(key) := canonicalId]
    {
      var chars := NormalizeKey(key);
      if chars == "" {
        return;
      }
      ghost var before := Shape(nodes, root);
      var index := InsertAt(root, chars, canonicalId);
      root := Some(index);
      contents := contents[chars := canonicalId];
      InsertRepresents(before, old(contents), chars, canonicalId);
    }

    method InsertAt(link: Option<nat>, key: string, canonicalId: string) returns (index: nat)
      requires key != ""
      requires Arena(nodes) && Forward(link, -1, |nodes|) && Separate(nodes, link)
      modifies this`nodes
      ensures Arena(nodes) && index < |nodes| && Separate(nodes, Some(index))
      ensures if link.Some? then index == link.value else index == |old(nodes)|
      ensures Shape(nodes, Some(index)) == TernaryTree.Insert(old(Shape(nodes, link)), key, canonicalId)
      ensures Grown(old(Footprint(nodes, link)), |old(nodes)|, Footprint(nodes, Some(index)), |nodes|)
      ensures UnchangedOutside(old(nodes), nodes, old(Footprint(nodes, link)))
      decreases |key|, Remaining(nodes, link)
    {
      if link.Some? {
        index := link.value;
      } else {
        index := |nodes|;
        nodes := nodes + [Node(key[0], None, None, None, None)];
      }
      ghost var start := nodes;
      var item := nodes[index];
      assert UnchangedOutside(old(nodes), start, old(Footprint(nodes, link)));
      assert Grown(old(Footprint(nodes, link)), |old(nodes)|, Footprint(start, Some(index)), |start|);
      if key[0] < item.ch {
        var next := InsertAt(item.lo, key, canonicalId);
        Relink(start, nodes, index, Lo, next);
        nodes := nodes[index := nodes[index].(lo := Some(next))];
      } else if key[0] > item.ch {
        var next := InsertAt(item.hi, key, canonicalId);
        Relink(start, nodes, index, Hi, next);
        nodes := nodes[index := nodes[index].(hi := Some(next))];
      } else if |key| == 1 {
        WriteNode(nodes, index, item.(posting := Some(canonicalId)));
        nodes := nodes[index := nodes[index].(posting := Some(canonicalId))];
      } else {
        var next := InsertAt(item.eq, key[1..], canonicalId);
        Relink(start, nodes, index, Eq, next);
        nodes := nodes[index := nodes[index].(eq := Some(next))];
      }
    }

    function Get(key: string): (id: Option<string>)
      requires Valid()
      reads this
      ensures id == if NormalizeKey(key) in contents then Some(contents[NormalizeKey(key)]) else None
    {
      var chars := NormalizeKey(key);
      if chars == "" then None
      else
        match FindIndex(nodes, root, chars)
        case None => None
        case Some(index) => nodes[index].posting
    }

    method Collect(link: Option<nat>, limit: nat, output: seq<string>) returns (extended: seq<string>)
      requires Arena(nodes) && Forward(link, -1, |nodes|)
      requires |output| <= limit
      ensures extended == Take(output + Ids(Entries(Shape(nodes, link))), limit)
      decreases Remaining(nodes, link)
    {
      extended := output;
      if |extended| >= limit {
        return;
      }
      if link.None? {
        return;
      }
      var item := nodes[link.value];
      extended := Collect(item.lo, limit, extended);
      ghost var lower := extended;
      if |extended| < limit {
        if item.posting.Some? {
          extended := extended + [item.posting.value];
        }
      }
      assert extended == Take(lower + Own(item.posting), limit);
      extended := Collect(item.eq, limit, extended);
      extended := Collect(item.hi, limit, extended);
      CollectedInOrder(Shape(nodes, link), output, limit);
    }

    /** The postings of the first `limit` stored keys, in lexicographic order, that start with the prefix. */
    method Prefix(prefix: string, limit: nat) returns (output: seq<string>)
      requires Valid()
      ensures IsPrefixAnswer(contents, NormalizeKey(prefix), limit, output)
    {
      hide NormalizeKey, Separate, Footprint, Paths, PrefixesOf, Ordered, Entries;
      var chars := NormalizeKey(prefix);
      output := [];
      if chars == "" || limit == 0 {
        EmptyAnswer(Shape(nodes, root), contents, chars, limit);
        return;
      }
      var found := FindIndex(nodes, root, chars);
      if found.Some? {
        if nodes[found.value].posting.Some? {
          output := output + [nodes[found.value].posting.value];
        }
        output := Collect(nodes[found.value].eq, limit, output);
      }
      ghost var node := Find(Shape(nodes, root), chars);
      if node.Branch? {
        IdsOfOwn(chars, node.posting, Entries(node.eq));
      }
      assert output == Take(Ids(Below(Shape(nodes, root), chars)), limit);
      BelowAnswers(Shape(nodes, root), contents, chars, limit);
    }

    /** One node for each distinct non-empty prefix of the keys inserted so far. */
    function NodeCount(): (count: nat)
      requires Valid()
      reads this
      ensures count == |PrefixesOf(contents.Keys)|
    {
      FootprintIsSize(nodes, root);
      CoveringSize(Footprint(nodes, root), |nodes|);
      SizeIsPaths(Shape(nodes, root));
      |nodes|
    }
  }

  // ---------- trees and maps ----------

  ghost predicate Answers(t: Tree, contents: map<string, string>) {
    forall k :: k != "" ==> Lookup(t, k) == if k in contents then Some(contents[k]) else None
  }

  ghost predicate Represents(t: Tree, contents: map<string, string>) {
    Ordered(t) && "" !in contents && Answers(t, contents) && Paths(t) == PrefixesOf(contents.Keys)
  }

  lemma InsertRepresents(t: Tree, contents: map<string, string>, key: string, id: string)
    requires Represents(t, contents) && key != ""
    ensures Represents(TernaryTree.Insert(t, key, id), contents[key := id])
  {
    InsertKeepsOrdered(t, key, id);
    InsertAnswers(t, contents, key, id);
    PathsAfterInsert(t, key, id);
    assert contents[key := id].Keys == contents.Keys + {key};
    MorePrefixes(contents.Keys, key);
  }

  lemma InsertAnswers(t: Tree, contents: map<string, string>, key: string, id: string)
    requires Answers(t, contents) && key != ""
    ensures Answers(TernaryTree.Insert(t, key, id), contents[key := id])
  {
    forall k | k != ""
      ensures Lookup(TernaryTree.Insert(t, key, id), k)
           == if k in contents[key := id] then Some(contents[key := id][k]) else None
    {
      LookupAfterInsert(t, key, id, k);
      assert Lookup(t, k) == if k in contents then Some(contents[k]) else None;
    }
  }

  lemma MorePrefixes(keys: set<string>, key: string)
    ensures PrefixesOf(keys + {key}) == PrefixesOf(keys) + Prefixes(key)
  {
    forall p ensures p in PrefixesOf(keys + {key}) <==> p in PrefixesOf(keys) || p in Prefixes(key) {
      assert p in Prefixes(key) ==> key in keys + {key};
    }
  }

  /** Inserting a stored key again, or a prefix of one, brings no new prefix and so no new node. */
  lemma KnownKeyAddsNoPrefix(contents: map<string, string>, known: string, key: string, id: string)
    requires known in contents && key <= known
    ensures PrefixesOf(contents[key := id].Keys) == PrefixesOf(contents.Keys)
  {
    forall p | p in Prefixes(key) ensures p in PrefixesOf(contents.Keys) {
      var n :| 1 <= n <= |key| && p == key[..n];
      assert p == known[..n];
      assert p in Prefixes(known);
    }
    MorePrefixes(contents.Keys, key);
    assert contents[key := id].Keys == contents.Keys + {key};
  }

  function Postings(contents: map<string, string>, keys: seq<string>): (ids: seq<string>)
    requires forall k :: k in keys ==> k in contents
    ensures |ids| == |keys|
  {
    seq(|keys|, i requires 0 <= i < |keys| => contents[keys[i]])
  }

  ghost function Keys(entries: seq<Entry>): (keys: seq<string>)
    ensures |keys| == |entries|
    ensures forall i :: 0 <= i < |keys| ==> keys[i] == entries[i].key
  {
    seq(|entries|, i requires 0 <= i < |entries| => entries[i].key)
  }

  /** The walk below a prefix visits the stored keys that start with it. */
  lemma BelowKeys(t: Tree, contents: map<string, string>, prefix: string, k: string)
    requires Represents(t, contents) && prefix != ""
    requires forall e :: e in Below(t, prefix) <==> prefix <= e.key && Lookup(t, e.key) == Some(e.id)
    ensures k in Keys(Below(t, prefix)) <==> k in contents && prefix <= k
  {
    var below := Below(t, prefix);
    if k in contents && prefix <= k {
      assert Lookup(t, k) == Some(contents[k]);
      assert Entry(k, contents[k]) in below;
      var i :| 0 <= i < |below| && below[i] == Entry(k, contents[k]);
      assert Keys(below)[i] == k;
    }
    if k in Keys(below) {
      var i :| 0 <= i < |below| && Keys(below)[i] == k;
      assert below[i] in below;
    }
  }

  /** The keys that start with a prefix, in lexicographic order; `SortedKeysUnique` says there is one such list. */
  ghost predicate PrefixRange(contents: map<string, string>, prefix: string, keys: seq<string>) {
    SortedKeys(keys) && forall k :: k in keys <==> k in contents && prefix <= k
  }

  /** The answer of a prefix query: the postings of the first `limit` keys of the range. */
  ghost predicate IsPrefixAnswer(contents: map<string, string>, prefix: string, limit: nat, output: seq<string>) {
    if prefix == "" then output == []
    else exists keys :: PrefixRange(contents, prefix, keys) && output == Take(Postings(contents, keys), limit)
  }

  /** There is only one answer to a prefix query. */
  lemma PrefixAnswerUnique(contents: map<string, string>, prefix: string, limit: nat, a: seq<string>, b: seq<string>)
    requires IsPrefixAnswer(contents, prefix, limit, a) && IsPrefixAnswer(contents, prefix, limit, b)
    ensures a == b
  {
    if prefix != "" {
      var ka :| PrefixRange(contents, prefix, ka) && a == Take(Postings(contents, ka), limit);
      var kb :| PrefixRange(contents, prefix, kb) && b == Take(Postings(contents, kb), limit);
      SortedKeysUnique(ka, kb);
    }
  }

  lemma BelowAnswers(t: Tree, contents: map<string, string>, prefix: string, limit: nat)
    requires Represents(t, contents) && prefix != ""
    ensures IsPrefixAnswer(contents, prefix, limit, Take(Ids(Below(t, prefix)), limit))
  {
    BelowIsPrefixRange(t, prefix);
    var below := Below(t, prefix);
    var keys := Keys(below);
    forall k ensures k in keys <==> k in contents && prefix <= k {
      BelowKeys(t, contents, prefix, k);
    }
    forall i | 0 <= i < |below| ensures below[i].id == contents[keys[i]] {
      assert below[i] in below && below[i].key == keys[i];
      assert Lookup(t, keys[i]) == Some(contents[keys[i]]);
    }
    assert Ids(below) == Postings(contents, keys);
    assert PrefixRange(contents, prefix, keys);
  }

  lemma EmptyAnswer(t: Tree, contents: map<string, string>, prefix: string, limit: nat)
    requires Represents(t, contents) && (prefix == "" || limit == 0)
    ensures IsPrefixAnswer(contents, prefix, limit, [])
  {
    if prefix != "" {
      BelowAnswers(t, contents, prefix, 0);
    }
  }

  // ---------- collecting under a limit ----------

  lemma TakeTwice(a: seq<string>, b: seq<string>, limit: nat)
    ensures Take(Take(a, limit) + b, limit) == Take(a + b, limit)
  {
  }

  lemma IdsConcat(a: seq<Entry>, b: seq<Entry>)
    ensures Ids(a + b) == Ids(a) + Ids(b)
  {
  }

  lemma IdsPrepend(prefix: string, entries: seq<Entry>)
    ensures Ids(Prepend(prefix, entries)) == Ids(entries)
  {
  }

  function Own(posting: Option<string>): seq<string> {
    if posting.Some? then [posting.value] else []
  }

  lemma IdsOfOwn(prefix: string, posting: Option<string>, entries: seq<Entry>)
    ensures Ids(PostingEntry(prefix, posting) + Prepend(prefix, entries)) == Own(posting) + Ids(entries)
  {
    IdsConcat(PostingEntry(prefix, posting), Prepend(prefix, entries));
    IdsPrepend(prefix, entries);
    assert Ids(PostingEntry(prefix, posting)) == Own(posting);
  }

  lemma IdsOfParts(t: Tree)
    requires t.Branch?
    ensures Ids(Entries(t)) == Ids(Entries(t.lo)) + (Own(t.posting) + Ids(Entries(t.eq))) + Ids(Entries(t.hi))
  {
    var middle := PostingEntry([t.ch], t.posting) + Prepend([t.ch], Entries(t.eq));
    IdsConcat(Entries(t.lo) + middle, Entries(t.hi));
    IdsConcat(Entries(t.lo), middle);
    IdsOfOwn([t.ch], t.posting, Entries(t.eq));
  }

  lemma TakeParts(output: seq<string>, a: seq<string>, b: seq<string>, c: seq<string>, d: seq<string>, limit: nat)
    ensures Take(Take(Take(Take(output + a, limit) + b, limit) + c, limit) + d, limit)
         == Take(output + (a + (b + c) + d), limit)
  {
    TakeTwice(output + a, b, limit);
    TakeTwice(output + a + b, c, limit);
    TakeTwice(output + a + b + c, d, limit);
    assert output + a + b + c + d == output + (a + (b + c) + d);
  }

  /** Collecting left to right under a limit takes the first entries of the whole walk. */
  lemma CollectedInOrder(t: Tree, output: seq<string>, limit: nat)
    requires t.Branch?
    ensures var lower := Take(output + Ids(Entries(t.lo)), limit);
            var own := Take(lower + Own(t.posting), limit);
            var middle := Take(own + Ids(Entries(t.eq)), limit);
            Take(middle + Ids(Entries(t.hi)), limit) == Take(output + Ids(Entries(t)), limit)
  {
    IdsOfParts(t);
    TakeParts(output, Ids(Entries(t.lo)), Own(t.posting), Ids(Entries(t.eq)), Ids(Entries(t.hi)), limit);
  }
}
