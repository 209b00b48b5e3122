/** Changes to the trie, one slot at a time: what a subtree built from a list of entries finds, and
    what that does to the map as a whole. */
module TrieEdits {
  import opened Bytes
  import opened Basics
  import opened BigValue
  import opened LeafCodec
  import opened HashTrie

  // ---- lists of entries ----

  /** No two entries have keys with the same hash. */
  predicate DistinctHashes(hash: HashFunction, entries: seq<Entry>) {
    forall i, j :: 0 <= i < j < |entries| ==> hash(entries[i].key) != hash(entries[j].key)
  }

  lemma DistinctHashesKeys(hash: HashFunction, entries: seq<Entry>)
    requires DistinctHashes(hash, entries)
    ensures DistinctKeys(entries)
  {
    forall i, j | 0 <= i < j < |entries| ensures entries[i].key != entries[j].key {
      assert hash(entries[i].key) != hash(entries[j].key);
    }
  }

  lemma FindIff(entries: seq<Entry>, key: seq<Byte>, value: seq<Byte>)
    requires DistinctKeys(entries)
    ensures Find(entries, key) == Some(value) <==> Entry(key, value) in entries
  {
    var i := IndexOf(entries, key);
    if j :| 0 <= j < |entries| && entries[j] == Entry(key, value) {
      assert i == j;
    }
    if i >= 0 {
      assert entries[i] == Entry(key, entries[i].value);
    }
  }

  /** The entries whose digit `d` is `b`, in order. */
  function WithDigit(hash: HashFunction, entries: seq<Entry>, d: nat, b: nat): seq<Entry> {
    if entries == [] then []
    else
      var n := |entries| - 1;
      WithDigit(hash, entries[..n], d, b) + (if Digit(hash(entries[n].key), d) == b then [entries[n]] else [])
  }

  lemma {:induction false} WithDigitMembers(hash: HashFunction, entries: seq<Entry>, d: nat, b: nat)
    ensures forall e :: e in WithDigit(hash, entries, d, b) <==> e in entries && Digit(hash(e.key), d) == b
  {
    hide Digit;
    if entries == [] {
    } else {
      var n := |entries| - 1;
      WithDigitMembers(hash, entries[..n], d, b);
      assert entries == entries[..n] + [entries[n]];
    }
  }

  lemma {:induction false} WithDigitDistinct(hash: HashFunction, entries: seq<Entry>, d: nat, b: nat)
    requires DistinctHashes(hash, entries)
    ensures DistinctHashes(hash, WithDigit(hash, entries, d, b))
  {
    hide Digit;
    if entries == [] {
    } else {
      var n := |entries| - 1;
      WithDigitDistinct(hash, entries[..n], d, b);
      WithDigitMembers(hash, entries[..n], d, b);
      var rest := WithDigit(hash, entries[..n], d, b);
      forall i | 0 <= i < |rest| ensures hash(rest[i].key) != hash(entries[n].key) {
        assert rest[i] in entries[..n];
      }
    }
  }

  /** A bucket finds what the whole list finds, for the keys that belong in it. */
  lemma BucketFinds(hash: HashFunction, entries: seq<Entry>, d: nat, key: seq<Byte>)
    requires DistinctHashes(hash, entries)
    ensures Find(WithDigit(hash, entries, d, Digit(hash(key), d)), key) == Find(entries, key)
  {
    hide Digit, Find, WithDigit, IndexOf;
    var b := Digit(hash(key), d);
    var bucket := WithDigit(hash, entries, d, b);
    WithDigitMembers(hash, entries, d, b);
    WithDigitDistinct(hash, entries, d, b);
    DistinctHashesKeys(hash, entries);
    DistinctHashesKeys(hash, bucket);
    match Find(entries, key) {
      case Some(value) =>
        FindIff(entries, key, value);
        FindIff(bucket, key, value);
      case None =>
        match Find(bucket, key) {
          case Some(value) =>
            FindIff(bucket, key, value);
            FindIff(entries, key, value);
          case None =>
        }
    }
  }

  /** What a subtree for the slot with digits `path` is built from. */
  ghost predicate Buildable(hash: HashFunction, entries: seq<Entry>, path: seq<nat>) {
    AllGood(entries) && DistinctHashes(hash, entries) && Routed(hash, entries, path)
  }

  lemma BucketBuildable(hash: HashFunction, entries: seq<Entry>, path: seq<nat>, b: nat)
    requires Buildable(hash, entries, path)
    ensures Buildable(hash, WithDigit(hash, entries, |path|, b), path + [b])
  {
    hide Digit, HasPrefix, GoodEntry, WithDigit;
    var bucket := WithDigit(hash, entries, |path|, b);
    WithDigitMembers(hash, entries, |path|, b);
    WithDigitDistinct(hash, entries, |path|, b);
    forall i | 0 <= i < |bucket| ensures GoodEntry(bucket[i]) && HasPrefix(hash(bucket[i].key), path + [b]) {
      assert bucket[i] in entries;
      var j :| 0 <= j < |entries| && entries[j] == bucket[i];
      PrefixSnoc(hash(bucket[i].key), path, b);
    }
  }

  /** Several entries with different hashes cannot share all eight digits. */
  lemma SeveralAreShallow(hash: HashFunction, entries: seq<Entry>, path: seq<nat>)
    requires Buildable(hash, entries, path) && |entries| >= 2
    ensures |path| < DIGITS
  {
    hide Digit;
    assert hash(entries[0].key) != hash(entries[1].key);
    DistinctHashesPart(hash(entries[0].key), hash(entries[1].key), path);
  }

  lemma Unused(pages: set<nat>) returns (p: nat)
    ensures p > ROOT_PAGE && forall x :: x in pages ==> x < p
  {
    if pages == {} {
      p := ROOT_PAGE + 1;
    } else {
      var x :| x in pages;
      var q := Unused(pages - {x});
      p := if x < q then q else x + 1;
      forall y | y in pages ensures y < p {
        assert y == x || y in pages - {x};
      }
    }
  }

  // ---- building a subtree, step by step ----

  /** Keys with the digits `path` find in the slot what is among the entries. */
  ghost predicate Finds(hash: HashFunction, nodes: Nodes, slot: Pointer, path: seq<nat>, entries: seq<Entry>) {
    forall key :: HasPrefix(hash(key), path) ==> LookupAt(hash, nodes, slot, |path|, key) == Find(entries, key)
  }

  ghost predicate SpotsKept(spots: Spots, spots': Spots, gone: Pointer) {
    forall q :: q in spots && q !in LeafPages(gone) ==> q in spots' && spots'[q] == spots[q]
  }

  /** The pages that came into the trie are linked, except `loose`. */
  ghost predicate NewLinked(spots: Spots, nodes': Nodes, spots': Spots, loose: nat) {
    forall q :: q in spots' && q !in spots && q != loose ==> q in nodes' && LinkOk(nodes', spots', q)
  }

  /** The subtree in slot `b` of page `p` now holds the entries, and nothing else differs. */
  ghost predicate Built(hash: HashFunction, nodes: Nodes, spots: Spots, nodes': Nodes, spots': Spots, p: nat, b: nat,
                        entries: seq<Entry>) {
    && NodesOk(hash, nodes', spots') && Grafted(nodes, spots, nodes', p, b)
    && p in spots' && spots'[p] == spots[p]
    && SpotsKept(spots, spots', nodes[p].children[b])
    && (forall q :: q in LeafPages(nodes[p].children[b]) ==> q !in spots')
    && NewLinked(spots, nodes', spots', p)
    && Finds(hash, nodes', nodes'[p].children[b], spots[p].path + [b], entries)
  }

  lemma LeafBuilt(hash: HashFunction, nodes: Nodes, spots: Spots, q: nat, entries: seq<Entry>, nodes': Nodes,
                  spots': Spots, p: nat, b: nat)
    requires NodesOk(hash, nodes, spots) && IsInner(nodes, p) && p in spots && b < BRANCHING_FACTOR
    requires !nodes[p].children[b].Internal? && q !in spots && LeafOk(hash, entries, spots[p].path + [b])
    requires SlotSet(nodes[q := LeafNode(entries)], spots[q := Spot(spots[p].path + [b], p)], nodes', spots', p, b, Leaf(q))
    ensures Built(hash, nodes, spots, nodes', spots', p, b, entries)
  {
    hide LeafOk, Find, Digit, HasPrefix, NodeOk, LinkOk;
    var nodes1, spots1 := nodes[q := LeafNode(entries)], spots[q := Spot(spots[p].path + [b], p)];
    LoosePage(hash, nodes, spots, nodes1, spots1, q, Spot(spots[p].path + [b], p));
    SlotSetOk(hash, nodes1, spots1, nodes', spots', p, b, Leaf(q));
  }

  /** The state while the slots of the new internal node `n` are filled in order: `i` are done. */
  ghost predicate Filling(hash: HashFunction, nodes0: Nodes, spots0: Spots, nodes: Nodes, spots: Spots, n: nat, s: Spot,
                          entries: seq<Entry>, i: nat) {
    && NodesOk(hash, nodes, spots) && IsInner(nodes, n) && n in spots && n !in spots0 && spots[n] == s
    && (forall q :: q in spots0 ==> q in spots && spots[q] == spots0[q] && q in nodes && q in nodes0 && nodes[q] == nodes0[q])
    && NewLinked(spots0, nodes, spots, n)
    && (forall j :: i <= j < BRANCHING_FACTOR ==> nodes[n].children[j] == Empty)
    && (forall j :: 0 <= j < BRANCHING_FACTOR && j < i ==> SlotFilled(hash, nodes, n, s.path, entries, j))
  }

  ghost predicate SlotFilled(hash: HashFunction, nodes: Nodes, n: nat, path: seq<nat>, entries: seq<Entry>, j: nat)
    requires IsInner(nodes, n) && j < BRANCHING_FACTOR
  {
    Finds(hash, nodes, nodes[n].children[j], path + [j], WithDigit(hash, entries, |path|, j))
  }

  lemma FillingStarts(hash: HashFunction, nodes: Nodes, spots: Spots, n: nat, s: Spot, entries: seq<Entry>)
    requires NodesOk(hash, nodes, spots) && n !in nodes && |s.path| < DIGITS
    ensures Filling(hash, nodes, spots, nodes[n := Inner(NO_CHILDREN)], spots[n := s], n, s, entries, 0)
  {
    hide LeafOk, Digit, HasPrefix, WithDigit;
    LoosePage(hash, nodes, spots, nodes[n := Inner(NO_CHILDREN)], spots[n := s], n, s);
    hide NodeOk, LinkOk;
  }

  lemma FillingSkips(hash: HashFunction, nodes0: Nodes, spots0: Spots, nodes: Nodes, spots: Spots, n: nat, s: Spot,
                     entries: seq<Entry>, i: nat)
    requires Filling(hash, nodes0, spots0, nodes, spots, n, s, entries, i) && i < BRANCHING_FACTOR
    requires WithDigit(hash, entries, |s.path|, i) == []
    ensures Filling(hash, nodes0, spots0, nodes, spots, n, s, entries, i + 1)
  {
    hide NodesOk, LinkOk, Digit, HasPrefix, WithDigit;
    assert nodes[n].children[i] == Empty;
    assert SlotFilled(hash, nodes, n, s.path, entries, i);
  }

  lemma FillingAdvances(hash: HashFunction, nodes0: Nodes, spots0: Spots, nodes: Nodes, spots: Spots, n: nat, s: Spot,
                        entries: seq<Entry>, i: nat, nodes': Nodes, spots': Spots)
    requires Filling(hash, nodes0, spots0, nodes, spots, n, s, entries, i) && i < BRANCHING_FACTOR
    requires Built(hash, nodes, spots, nodes', spots', n, i, WithDigit(hash, entries, |s.path|, i))
    ensures Filling(hash, nodes0, spots0, nodes', spots', n, s, entries, i + 1)
  {
    hide Digit, HasPrefix, WithDigit, Find, NodesOk, LinkOk, SlotFilled, LookupAt, Finds;
    forall j | 0 <= j < BRANCHING_FACTOR && j < i + 1 ensures SlotFilled(hash, nodes', n, s.path, entries, j) {
      if j < i {
        assert SlotFilled(hash, nodes, n, s.path, entries, j);
        SlotStaysFilled(hash, nodes, spots, n, s, entries, i, j, nodes');
      } else {
        SlotNowFilled(hash, nodes', n, s.path, entries, i);
      }
    }
    KeptLinked(hash, spots0, nodes, spots, nodes', spots', n, i);
  }

  lemma SlotNowFilled(hash: HashFunction, nodes: Nodes, n: nat, path: seq<nat>, entries: seq<Entry>, j: nat)
    requires IsInner(nodes, n) && j < BRANCHING_FACTOR
    requires Finds(hash, nodes, nodes[n].children[j], path + [j], WithDigit(hash, entries, |path|, j))
    ensures SlotFilled(hash, nodes, n, path, entries, j)
  {
  }

  /** Filling one slot leaves the others. */
  lemma SlotStaysFilled(hash: HashFunction, nodes: Nodes, spots: Spots, n: nat, s: Spot, entries: seq<Entry>, i: nat,
                        j: nat, nodes': Nodes)
    requires NodesOk(hash, nodes, spots) && IsInner(nodes, n) && n in spots && spots[n] == s
    requires Grafted(nodes, spots, nodes', n, i) && nodes[n].children[i] == Empty && j < BRANCHING_FACTOR && j != i
    requires SlotFilled(hash, nodes, n, s.path, entries, j)
    ensures SlotFilled(hash, nodes', n, s.path, entries, j)
  {
    hide LeafOk, Digit, HasPrefix, WithDigit, Find;
    var child := nodes[n].children[j];
    assert NodeOk(hash, nodes, spots, n) && ChildOk(nodes, spots, n, j);
    forall key | HasPrefix(hash(key), s.path + [j])
      ensures LookupAt(hash, nodes', child, |s.path| + 1, key) == LookupAt(hash, nodes, child, |s.path| + 1, key)
    {
      if child != Empty {
        LookupBelow(hash, nodes, spots, nodes', n, Empty, child.page, key);
      }
    }
  }

  /** What was linked before a subtree was built is linked after. */
  lemma KeptLinked(hash: HashFunction, spots0: Spots, nodes: Nodes, spots: Spots, nodes': Nodes, spots': Spots,
                   p: nat, b: nat)
    requires NodesOk(hash, nodes, spots) && NodesOk(hash, nodes', spots') && Grafted(nodes, spots, nodes', p, b)
    requires p in spots' && spots'[p] == spots[p] && !nodes[p].children[b].Internal?
    requires SpotsKept(spots, spots', nodes[p].children[b]) && NewLinked(spots, nodes', spots', p)
    requires forall q :: q in LeafPages(nodes[p].children[b]) ==> q !in spots'
    requires NewLinked(spots0, nodes, spots, p)
    ensures NewLinked(spots0, nodes', spots', p)
  {
    hide LeafOk;
    forall q | q in spots' && q !in spots0 && q != p ensures q in nodes' && LinkOk(nodes', spots', q) {
      if q in spots {
        LinkKept(hash, nodes, spots, nodes', spots', p, b, q);
      }
    }
  }

  lemma LinkKept(hash: HashFunction, nodes: Nodes, spots: Spots, nodes': Nodes, spots': Spots, p: nat, b: nat, q: nat)
    requires NodesOk(hash, nodes, spots) && NodesOk(hash, nodes', spots') && Grafted(nodes, spots, nodes', p, b)
    requires p in spots' && spots'[p] == spots[p] && !nodes[p].children[b].Internal?
    requires SpotsKept(spots, spots', nodes[p].children[b])
    requires forall x :: x in LeafPages(nodes[p].children[b]) ==> x !in spots'
    requires q in spots && q in spots' && LinkOk(nodes, spots, q)
    ensures LinkOk(nodes', spots', q)
  {
    hide LeafOk;
    var parent := spots[q].parent;
    assert NodeOk(hash, nodes, spots, parent) && NodeOk(hash, nodes, spots, q) && NodeOk(hash, nodes, spots, p);
    assert ChildOk(nodes, spots, p, b);
  }

  lemma InnerBuilt(hash: HashFunction, nodes: Nodes, spots: Spots, nodes1: Nodes, spots1: Spots, n: nat,
                   entries: seq<Entry>,
                   nodes': Nodes, spots': Spots, p: nat, b: nat)
    requires NodesOk(hash, nodes, spots) && IsInner(nodes, p) && p in spots && b < BRANCHING_FACTOR && !nodes[p].children[b].Internal?
    requires Filling(hash, nodes, spots, nodes1, spots1, n, Spot(spots[p].path + [b], p), entries, BRANCHING_FACTOR)
    requires DistinctHashes(hash, entries)
    requires SlotSet(nodes1, spots1, nodes', spots', p, b, Internal(n))
    ensures Built(hash, nodes, spots, nodes', spots', p, b, entries)
  {
    hide LeafOk, Digit, HasPrefix, WithDigit, Find, DistinctHashes, NodeOk, LinkOk, SlotFilled, NodesOk, SlotSet, Grafted;
    FillingParent(hash, nodes, spots, nodes1, spots1, n, Spot(spots[p].path + [b], p), entries, p);
    SlotSetOk(hash, nodes1, spots1, nodes', spots', p, b, Internal(n));
    InnerSlotFinds(hash, nodes1, spots1, nodes', spots', n, p, b, entries);
    SpotsHaveNodes(hash, nodes', spots');
    InnerFrame(hash, nodes, spots, nodes1, spots1, n, nodes', spots', p, b);
  }

  lemma SpotsHaveNodes(hash: HashFunction, nodes: Nodes, spots: Spots)
    requires NodesOk(hash, nodes, spots)
    ensures spots.Keys <= nodes.Keys
  {
  }

  lemma InnerSlotFinds(hash: HashFunction, nodes: Nodes, spots: Spots, nodes': Nodes, spots': Spots, n: nat, p: nat,
                       b: nat,
                       entries: seq<Entry>)
    requires NodesOk(hash, nodes, spots) && SlotSet(nodes, spots, nodes', spots', p, b, Internal(n))
    requires IsInner(nodes, n) && DistinctHashes(hash, entries) && !nodes[p].children[b].Internal?
    requires forall j :: 0 <= j < BRANCHING_FACTOR ==> SlotFilled(hash, nodes, n, spots[n].path, entries, j)
    ensures Finds(hash, nodes', nodes'[p].children[b], spots[p].path + [b], entries)
  {
    hide LeafOk, Digit, HasPrefix, WithDigit, Find, DistinctHashes, SlotFilled, LookupAt;
    var path := spots[p].path + [b];
    assert NodeOk(hash, nodes, spots, p) && ChildOk(nodes, spots, p, b);
    forall key | HasPrefix(hash(key), path) ensures LookupAt(hash, nodes', Internal(n), |path|, key) == Find(entries, key) {
      InnerFinds(hash, nodes, spots, n, path, entries, key);
      LookupBelow(hash, nodes, spots, nodes', p, nodes[p].children[b], n, key);
    }
  }

  lemma InnerFrame(hash: HashFunction, nodes: Nodes, spots: Spots, nodes1: Nodes, spots1: Spots, n: nat,
                   nodes': Nodes, spots': Spots, p: nat, b: nat)
    requires NodesOk(hash, nodes, spots) && IsInner(nodes, p) && p in spots && b < BRANCHING_FACTOR && n !in spots
    requires forall q :: q in spots ==> q in spots1 && spots1[q] == spots[q] && q in nodes1 && q in nodes && nodes1[q] == nodes[q]
    requires NewLinked(spots, nodes1, spots1, n) && SlotSet(nodes1, spots1, nodes', spots', p, b, Internal(n))
    requires spots'.Keys <= nodes'.Keys && n in spots' && LinkOk(nodes', spots', n)
    requires forall q :: q in spots' && q in nodes1 && q in spots1 && q in nodes' && LinkOk(nodes1, spots1, q) ==> LinkOk(nodes', spots', q)
    ensures Grafted(nodes, spots, nodes', p, b) && SpotsKept(spots, spots', nodes[p].children[b])
    ensures forall q :: q in LeafPages(nodes[p].children[b]) ==> q !in spots'
    ensures NewLinked(spots, nodes', spots', p)
    ensures p in spots' ==> spots'[p] == spots[p]
  {
    hide NodesOk, LinkOk;
  }

  /** With all slots filled, the internal node finds what the list of all entries does. */
  lemma InnerFinds(hash: HashFunction, nodes: Nodes, spots: Spots, n: nat, path: seq<nat>, entries: seq<Entry>,
                   key: seq<Byte>)
    requires NodesOk(hash, nodes, spots) && IsInner(nodes, n) && n in spots && spots[n].path == path
    requires forall j :: 0 <= j < BRANCHING_FACTOR ==> SlotFilled(hash, nodes, n, path, entries, j)
    requires DistinctHashes(hash, entries) && HasPrefix(hash(key), path)
    ensures LookupAt(hash, nodes, Internal(n), |path|, key) == Find(entries, key)
  {
    hide Digit, HasPrefix, WithDigit, Find, DistinctHashes, NodeOk;
    InnerIsShallow(hash, nodes, spots, n);
    var j := Digit(hash(key), |path|);
    PrefixSnoc(hash(key), path, j);
    assert SlotFilled(hash, nodes, n, path, entries, j);
    BucketFinds(hash, entries, |path|, key);
  }

  function Stored(contents: map<seq<Byte>, seq<Byte>>, key: seq<Byte>): Option<seq<Byte>> {
    if key in contents then Some(contents[key]) else None
  }

  // ---- what a change of one slot does to the map ----

  ghost predicate Agrees(hash: HashFunction, nodes: Nodes, contents: map<seq<Byte>, seq<Byte>>) {
    forall key :: Get(hash, nodes, key) == Stored(contents, key)
  }

  /** Whatever is found was stored. */
  ghost predicate FindsNothingElse(hash: HashFunction, nodes: Nodes, contents: map<seq<Byte>, seq<Byte>>) {
    forall key :: Get(hash, nodes, key) == None || Get(hash, nodes, key) == Stored(contents, key)
  }

  lemma AgreesFindsNothingElse(hash: HashFunction, nodes: Nodes, contents: map<seq<Byte>, seq<Byte>>)
    requires Agrees(hash, nodes, contents)
    ensures FindsNothingElse(hash, nodes, contents)
  {
    hide Get, Stored;
  }

  lemma BuiltIsTrie(hash: HashFunction, nodes: Nodes, spots: Spots, nodes': Nodes, spots': Spots, p: nat, b: nat,
                    entries: seq<Entry>)
    requires TrieOk(hash, nodes, spots) && Built(hash, nodes, spots, nodes', spots', p, b, entries)
    requires !nodes[p].children[b].Internal?
    ensures TrieOk(hash, nodes', spots')
  {
    hide NodeOk, LinkOk, Finds;
    ChildIsOld(hash, nodes, spots, p, b);
    LeafIsNotRoot(hash, nodes, spots, p, b);
    forall q | q in spots' && q != ROOT_PAGE ensures LinkOk(nodes', spots', q) {
      if q in spots {
        LinkKept(hash, nodes, spots, nodes', spots', p, b, q);
      }
    }
  }

  lemma LeafIsNotRoot(hash: HashFunction, nodes: Nodes, spots: Spots, p: nat, b: nat)
    requires TrieOk(hash, nodes, spots) && IsInner(nodes, p) && p in spots && b < BRANCHING_FACTOR
    ensures ROOT_PAGE !in LeafPages(nodes[p].children[b])
  {
    assert NodeOk(hash, nodes, spots, p) && ChildOk(nodes, spots, p, b);
  }

  /** The map after a subtree was built: in the slot what was built, elsewhere what was there. */
  lemma BuiltAgrees(hash: HashFunction, nodes: Nodes, spots: Spots, nodes': Nodes, spots': Spots, p: nat, b: nat,
                    entries: seq<Entry>,
                    contents: map<seq<Byte>, seq<Byte>>, contents': map<seq<Byte>, seq<Byte>>)
    requires TrieOk(hash, nodes, spots) && Built(hash, nodes, spots, nodes', spots', p, b, entries)
    requires !nodes[p].children[b].Internal? && Agrees(hash, nodes, contents)
    requires forall key {:trigger Stored(contents', key)} :: Stored(contents', key) ==
               if HasPrefix(hash(key), spots[p].path + [b]) then Find(entries, key) else Stored(contents, key)
    ensures TrieOk(hash, nodes', spots') && Agrees(hash, nodes', contents')
  {
    BuiltIsTrie(hash, nodes, spots, nodes', spots', p, b, entries);
    hide TrieOk, NodesOk, Find, Stored, HasPrefix, LookupAt, NewLinked, SpotsKept, Get;
    forall key ensures Get(hash, nodes', key) == Stored(contents', key) {
      GraftEffect(hash, nodes, spots, nodes', spots', p, b, key);
    }
  }

  /** The map after the entries of a leaf were replaced in place. */
  lemma LeafEdited(hash: HashFunction, nodes: Nodes, spots: Spots, p: nat, b: nat, leaf: nat, entries: seq<Entry>,
                   contents: map<seq<Byte>, seq<Byte>>, contents': map<seq<Byte>, seq<Byte>>)
    requires TrieOk(hash, nodes, spots) && Agrees(hash, nodes, contents)
    requires IsInner(nodes, p) && p in spots && b < BRANCHING_FACTOR && nodes[p].children[b] == Leaf(leaf)
    requires LeafOk(hash, entries, spots[p].path + [b])
    requires forall key {:trigger Stored(contents', key)} :: Stored(contents', key) ==
               if HasPrefix(hash(key), spots[p].path + [b]) then Find(entries, key) else Stored(contents, key)
    ensures TrieOk(hash, nodes[leaf := LeafNode(entries)], spots) && Agrees(hash, nodes[leaf := LeafNode(entries)], contents')
  {
    var nodes' := nodes[leaf := LeafNode(entries)];
    EditedIsTrie(hash, nodes, spots, p, b, leaf, entries);
    ChildIsOld(hash, nodes, spots, p, b);
    hide TrieOk, NodesOk, Find, Stored, HasPrefix, LeafOk, Get;
    forall key ensures Get(hash, nodes', key) == Stored(contents', key) {
      GraftEffect(hash, nodes, spots, nodes', spots, p, b, key);
    }
  }

  lemma EditedIsTrie(hash: HashFunction, nodes: Nodes, spots: Spots, p: nat, b: nat, leaf: nat, entries: seq<Entry>)
    requires TrieOk(hash, nodes, spots)
    requires IsInner(nodes, p) && p in spots && b < BRANCHING_FACTOR && nodes[p].children[b] == Leaf(leaf)
    requires LeafOk(hash, entries, spots[p].path + [b])
    ensures TrieOk(hash, nodes[leaf := LeafNode(entries)], spots)
  {
    hide LeafOk, LinkOk, ChildOk;
    var nodes' := nodes[leaf := LeafNode(entries)];
    assert NodeOk(hash, nodes, spots, p);
    LeafInSlot(nodes, spots, p, b, leaf);
    forall q | q in spots ensures NodeOk(hash, nodes', spots, q) && (q != ROOT_PAGE ==> LinkOk(nodes', spots, q)) {
      assert NodeOk(hash, nodes, spots, q);
      if nodes[q].Inner? {
        forall i | 0 <= i < BRANCHING_FACTOR ensures ChildOk(nodes', spots, q, i) {
          ChildStays(nodes, spots, q, i, leaf, entries);
        }
      }
      if q != ROOT_PAGE {
        LinkStays(nodes, spots, q, leaf, entries);
      }
    }
  }

  lemma LeafInSlot(nodes: Nodes, spots: Spots, p: nat, b: nat, leaf: nat)
    requires IsInner(nodes, p) && p in spots && b < BRANCHING_FACTOR && nodes[p].children[b] == Leaf(leaf)
    requires ChildOk(nodes, spots, p, b)
    ensures IsLeaf(nodes, leaf) && leaf in spots && spots[leaf].path == spots[p].path + [b]
  {
  }

  lemma ChildStays(nodes: Nodes, spots: Spots, q: nat, i: nat, leaf: nat, entries: seq<Entry>)
    requires IsLeaf(nodes, leaf) && IsInner(nodes, q) && q in spots && i < BRANCHING_FACTOR && ChildOk(nodes, spots, q, i)
    ensures ChildOk(nodes[leaf := LeafNode(entries)], spots, q, i)
  {
  }

  lemma LinkStays(nodes: Nodes, spots: Spots, q: nat, leaf: nat, entries: seq<Entry>)
    requires IsLeaf(nodes, leaf) && q in nodes && q in spots && LinkOk(nodes, spots, q)
    ensures LinkOk(nodes[leaf := LeafNode(entries)], spots, q)
  {
  }

  /** What is in a slot, in terms of the map. */
  lemma SlotContents(hash: HashFunction, nodes: Nodes, spots: Spots, p: nat, b: nat, contents: map<seq<Byte>,
                     seq<Byte>>)
    requires TrieOk(hash, nodes, spots) && Agrees(hash, nodes, contents)
    requires IsInner(nodes, p) && p in spots && b < BRANCHING_FACTOR
    ensures var slot, path := nodes[p].children[b], spots[p].path + [b];
      && (slot == Empty ==> forall key :: HasPrefix(hash(key), path) ==> Stored(contents, key) == None)
      && (slot.Leaf? ==>
            && IsLeaf(nodes, slot.page) && slot.page in spots && spots[slot.page] == Spot(path, p)
            && LeafOk(hash, nodes[slot.page].entries, path)
            && forall key :: HasPrefix(hash(key), path) ==> Stored(contents, key) == Find(nodes[slot.page].entries, key))
  {
    hide Find, Stored, HasPrefix, LeafOk, LinkOk, Get;
    var slot, path := nodes[p].children[b], spots[p].path + [b];
    assert NodeOk(hash, nodes, spots, p) && ChildOk(nodes, spots, p, b);
    if slot.Leaf? {
      assert NodeOk(hash, nodes, spots, slot.page);
    }
    forall key | HasPrefix(hash(key), path) && !slot.Internal?
      ensures Stored(contents, key) == if slot == Empty then None else Find(nodes[slot.page].entries, key)
    {
      LookupInSlot(hash, nodes, spots, p, b, key);
      assert Get(hash, nodes, key) == Stored(contents, key);
    }
  }

  // ---- the entries of a leaf before and after a write ----

  lemma AppendFinds(entries: seq<Entry>, e: Entry, key: seq<Byte>)
    requires Find(entries, e.key) == None
    ensures Find(entries + [e], key) == if key == e.key then Some(e.value) else Find(entries, key)
  {
    var i, j := IndexOf(entries, key), IndexOf(entries + [e], key);
    assert forall k :: 0 <= k < |entries| ==> (entries + [e])[k] == entries[k];
    assert (entries + [e])[|entries|] == e;
  }

  lemma UpdateFinds(entries: seq<Entry>, i: nat, value: seq<Byte>, key: seq<Byte>)
    requires i < |entries| && DistinctKeys(entries)
    ensures var entries' := entries[i := Entry(entries[i].key, value)];
      && DistinctKeys(entries')
      && Find(entries', key) == if key == entries[i].key then Some(value) else Find(entries, key)
  {
    var entries' := entries[i := Entry(entries[i].key, value)];
    assert forall k :: 0 <= k < |entries| ==> entries'[k].key == entries[k].key;
    var m, m' := IndexOf(entries, key), IndexOf(entries', key);
    assert m >= 0 ==> m' == m;
  }

  /** The keys are told apart by their hashes. */
  predicate Separate(hash: HashFunction, keys: set<seq<Byte>>) {
    forall k, k' :: k in keys && k' in keys && hash(k) == hash(k') ==> k == k'
  }

  /** The entries in a slot whose keys have the digits `path`, as the map knows them. */
  ghost predicate SlotHolds(hash: HashFunction, entries: seq<Entry>, path: seq<nat>, contents: map<seq<Byte>,
                            seq<Byte>>) {
    && LeafOk(hash, entries, path)
    && forall key :: HasPrefix(hash(key), path) ==> Stored(contents, key) == Find(entries, key)
  }

  lemma StoredKeys(hash: HashFunction, entries: seq<Entry>, path: seq<nat>, contents: map<seq<Byte>, seq<Byte>>)
    requires SlotHolds(hash, entries, path, contents)
    ensures forall i :: 0 <= i < |entries| ==> entries[i].key in contents && contents[entries[i].key] == entries[i].value
  {
    hide HasPrefix;
    forall i | 0 <= i < |entries| ensures entries[i].key in contents && contents[entries[i].key] == entries[i].value {
      FindIff(entries, entries[i].key, entries[i].value);
    }
  }

  lemma AppendedBuildable(hash: HashFunction, entries: seq<Entry>, e: Entry, path: seq<nat>, contents: map<seq<Byte>,
                          seq<Byte>>)
    requires SlotHolds(hash, entries, path, contents) && GoodEntry(e) && HasPrefix(hash(e.key), path)
    requires e.key !in contents && Separate(hash, contents.Keys + {e.key})
    ensures Buildable(hash, entries + [e], path)
  {
    hide HasPrefix, GoodEntry;
    StoredKeys(hash, entries, path, contents);
    var more := entries + [e];
    forall i, j | 0 <= i < j < |more| ensures hash(more[i].key) != hash(more[j].key) {
      assert more[i].key in contents.Keys + {e.key} && more[j].key in contents.Keys + {e.key};
    }
  }

  lemma UpdatedBuildable(hash: HashFunction, entries: seq<Entry>, i: nat, value: seq<Byte>, path: seq<nat>,
                         contents: map<seq<Byte>, seq<Byte>>)
    requires SlotHolds(hash, entries, path, contents) && i < |entries| && |value| < U64_LIMIT && Separate(hash, contents.Keys)
    ensures Buildable(hash, entries[i := Entry(entries[i].key, value)], path)
  {
    hide HasPrefix, SlotHolds, Separate;
    SlotDistinct(hash, entries, path, contents);
    var entries' := entries[i := Entry(entries[i].key, value)];
    assert forall k :: 0 <= k < |entries| ==> entries'[k].key == entries[k].key;
  }

  lemma SlotDistinct(hash: HashFunction, entries: seq<Entry>, path: seq<nat>, contents: map<seq<Byte>, seq<Byte>>)
    requires SlotHolds(hash, entries, path, contents) && Separate(hash, contents.Keys)
    ensures AllGood(entries) && Routed(hash, entries, path) && DistinctHashes(hash, entries)
  {
    hide HasPrefix, GoodEntry;
    StoredKeys(hash, entries, path, contents);
  }

  lemma AppendedContents(hash: HashFunction, entries: seq<Entry>, e: Entry, path: seq<nat>,
                         contents: map<seq<Byte>, seq<Byte>>, key: seq<Byte>)
    requires SlotHolds(hash, entries, path, contents) && HasPrefix(hash(e.key), path) && e.key !in contents
    ensures Stored(contents[e.key := e.value], key)
         == if HasPrefix(hash(key), path) then Find(entries + [e], key) else Stored(contents, key)
  {
    hide HasPrefix, LeafOk, Find;
    assert Stored(contents, e.key) == None;
    AppendFinds(entries, e, key);
  }

  lemma UpdatedContents(hash: HashFunction, entries: seq<Entry>, i: nat, value: seq<Byte>, path: seq<nat>,
                        contents: map<seq<Byte>, seq<Byte>>, key: seq<Byte>)
    requires SlotHolds(hash, entries, path, contents) && i < |entries|
    ensures Stored(contents[entries[i].key := value], key)
         == if HasPrefix(hash(key), path) then Find(entries[i := Entry(entries[i].key, value)], key) else Stored(contents, key)
  {
    hide HasPrefix, Find;
    UpdateFinds(entries, i, value, key);
  }

  /** In an empty slot there is nothing but what is added. */
  lemma FirstContents(hash: HashFunction, e: Entry, path: seq<nat>, contents: map<seq<Byte>, seq<Byte>>, key: seq<Byte>)
    requires forall k :: HasPrefix(hash(k), path) ==> Stored(contents, k) == None
    requires HasPrefix(hash(e.key), path)
    ensures Stored(contents[e.key := e.value], key)
         == if HasPrefix(hash(key), path) then Find([e], key) else Stored(contents, key)
  {
    hide HasPrefix;
    assert IndexOf([e], key) == if key == e.key then 0 else -1;
  }

  lemma OneBuildable(hash: HashFunction, e: Entry, path: seq<nat>)
    requires GoodEntry(e) && HasPrefix(hash(e.key), path)
    ensures Buildable(hash, [e], path)
  {
  }

  ghost predicate EmptySlot(hash: HashFunction, path: seq<nat>, contents: map<seq<Byte>, seq<Byte>>) {
    forall key :: HasPrefix(hash(key), path) ==> Stored(contents, key) == None
  }

  lemma SlotParts(hash: HashFunction, nodes: Nodes, spots: Spots, p: nat, b: nat, contents: map<seq<Byte>, seq<Byte>>)
    requires TrieOk(hash, nodes, spots) && Agrees(hash, nodes, contents)
    requires IsInner(nodes, p) && p in spots && b < BRANCHING_FACTOR
    ensures NodesOk(hash, nodes, spots)
    ensures var slot, path := nodes[p].children[b], spots[p].path + [b];
      && (slot == Empty ==> EmptySlot(hash, path, contents))
      && (slot.Leaf? ==> IsLeaf(nodes, slot.page) && slot.page in spots && SlotHolds(hash, nodes[slot.page].entries, path, contents))
  {
    hide HasPrefix, LeafOk, Find, Stored, Get, NodeOk, LinkOk;
    SlotContents(hash, nodes, spots, p, b, contents);
  }

  /** Without the only key of a slot, the slot is empty. */
  lemma OneKeyOut(hash: HashFunction, e: Entry, path: seq<nat>, contents: map<seq<Byte>, seq<Byte>>)
    requires SlotHolds(hash, [e], path, contents)
    ensures e.key in contents && contents[e.key] == e.value && HasPrefix(hash(e.key), path) && GoodEntry(e)
    ensures var rest := contents - {e.key};
      && EmptySlot(hash, path, rest)
      && forall key :: !HasPrefix(hash(key), path) ==> Stored(rest, key) == Stored(contents, key)
  {
    hide HasPrefix, GoodEntry;
    StoredKeys(hash, [e], path, contents);
    assert [e][0] == e;
    forall key | HasPrefix(hash(key), path) ensures Stored(contents - {e.key}, key) == None {
      assert Stored(contents, key) == Find([e], key);
    }
  }

  /** The only entry of a leaf may stay one on a longer path. */
  lemma OneLeafOk(hash: HashFunction, e: Entry, path: seq<nat>, path': seq<nat>)
    requires LeafOk(hash, [e], path) && HasPrefix(hash(e.key), path')
    ensures LeafOk(hash, [e], path')
  {
    hide HasPrefix;
  }

  lemma OneContents(hash: HashFunction, e: Entry, path: seq<nat>, rest: map<seq<Byte>, seq<Byte>>,
                    contents: map<seq<Byte>, seq<Byte>>,
                    key: seq<Byte>)
    requires contents == rest[e.key := e.value] && EmptySlot(hash, path, rest) && HasPrefix(hash(e.key), path)
    ensures Stored(contents, key) == if HasPrefix(hash(key), path) then Find([e], key) else Stored(rest, key)
  {
    hide HasPrefix;
    FirstContents(hash, e, path, rest, key);
  }

  lemma MapWithout(contents: map<seq<Byte>, seq<Byte>>, key: seq<Byte>)
    requires key in contents
    ensures contents == (contents - {key})[key := contents[key]]
  {
  }

  /** An empty internal node in a slot: nothing is found below it. */
  lemma EmptyInnerBuilt(hash: HashFunction, nodes: Nodes, spots: Spots, n: nat, nodes': Nodes, spots': Spots, p: nat,
                        b: nat)
    requires NodesOk(hash, nodes, spots) && IsInner(nodes, p) && p in spots && b < BRANCHING_FACTOR && !nodes[p].children[b].Internal?
    requires n !in nodes && |spots[p].path| + 1 < DIGITS
    requires SlotSet(nodes[n := Inner(NO_CHILDREN)], spots[n := Spot(spots[p].path + [b], p)], nodes', spots', p, b, Internal(n))
    ensures Built(hash, nodes, spots, nodes', spots', p, b, [])
  {
    hide LeafOk, HasPrefix, Digit, NodesOk, LinkOk, SlotSet, Built, NewLinked;
    var s := Spot(spots[p].path + [b], p);
    var nodes1, spots1 := nodes[n := Inner(NO_CHILDREN)], spots[n := s];
    FillingStarts(hash, nodes, spots, n, s, []);
    forall j | 0 <= j < BRANCHING_FACTOR ensures SlotFilled(hash, nodes1, n, s.path, [], j) {
      assert nodes1[n].children[j] == Empty;
    }
    InnerBuilt(hash, nodes, spots, nodes1, spots1, n, [], nodes', spots', p, b);
  }

  const NO_CHILDREN: seq<Pointer> := seq(BRANCHING_FACTOR, _ => Empty)

  lemma AppendedFits(hash: HashFunction, entries: seq<Entry>, e: Entry, path: seq<nat>)
    requires Buildable(hash, entries + [e], path) && |EncodeAll(entries)| + |e.key| + 9 + |e.value| <= CAPACITY
    ensures LeafOk(hash, entries + [e], path)
  {
    hide EncodeAll;
    EncodeOne(e);
    EncodeParts(e);
    EncodeConcat(entries, [e]);
    BuildableLeaf(hash, entries + [e], path);
  }

  lemma UpdatedSize(entries: seq<Entry>, i: nat, value: seq<Byte>)
    requires i < |entries|
    ensures |EncodeAll(entries[i := Entry(entries[i].key, value)])| == |EncodeAll(entries)| + |value| - |entries[i].value|
  {
    hide EncodeAll, Encode;
    var entries' := entries[i := Entry(entries[i].key, value)];
    EncodeSplit(entries, i);
    EncodeSplit(entries', i);
    EncodeParts(entries[i]);
    EncodeParts(entries'[i]);
    assert entries'[..i] == entries[..i] && entries'[i + 1..] == entries[i + 1..];
  }

  /** Emptying a slot. */
  lemma EmptiedBuilt(hash: HashFunction, nodes: Nodes, spots: Spots, nodes': Nodes, spots': Spots, p: nat, b: nat)
    requires NodesOk(hash, nodes, spots) && SlotSet(nodes, spots, nodes', spots', p, b, Empty) && !nodes[p].children[b].Internal?
    ensures Built(hash, nodes, spots, nodes', spots', p, b, [])
  {
    hide LeafOk, HasPrefix, Digit;
    SlotSetOk(hash, nodes, spots, nodes', spots', p, b, Empty);
    hide NodeOk, LinkOk;
  }

  lemma SlotSetParts(nodes: Nodes, spots: Spots, nodes': Nodes, spots': Spots, p: nat, b: nat, ptr: Pointer)
    requires SlotSet(nodes, spots, nodes', spots', p, b, ptr) && p !in LeafPages(nodes[p].children[b])
    ensures IsInner(nodes', p) && nodes'[p].children[b] == ptr && p in spots' && spots'[p] == spots[p]
  {
  }

  lemma AbsentInEmpty(hash: HashFunction, path: seq<nat>, contents: map<seq<Byte>, seq<Byte>>, key: seq<Byte>)
    requires EmptySlot(hash, path, contents) && HasPrefix(hash(key), path)
    ensures key !in contents
  {
    assert Stored(contents, key) == None;
  }

  /** Whether a key is stored, and how big its entry is, read off its leaf. */
  lemma LeafHoldsKey(hash: HashFunction, entries: seq<Entry>, path: seq<nat>, contents: map<seq<Byte>, seq<Byte>>,
                     key: seq<Byte>)
    requires SlotHolds(hash, entries, path, contents) && HasPrefix(hash(key), path)
    ensures var i := IndexOf(entries, key);
      && (i >= 0 <==> key in contents) && (i >= 0 ==> contents[key] == entries[i].value)
      && (i >= 0 ==> (|EncodeAll(entries)| > CAPACITY <==> |key| + 9 + |contents[key]| > CAPACITY))
      && (i >= 0 && |EncodeAll(entries)| > CAPACITY ==> |entries| == 1)
  {
    hide HasPrefix, EncodeAll;
    assert Stored(contents, key) == Find(entries, key);
    var i := IndexOf(entries, key);
    if i >= 0 {
      EncodeSplit(entries, i);
      EncodeParts(entries[i]);
      if |entries| == 1 {
        assert entries == [entries[i]];
        EncodeOne(entries[i]);
      }
    }
  }

  lemma NothingFound()
    ensures forall key: seq<Byte> :: Find([], key) == None
  {
  }

  lemma LooseLeaf(hash: HashFunction, nodes: Nodes, spots: Spots, leaf: nat, e: Entry, s: Spot)
    requires NodesOk(hash, nodes, spots) && leaf in nodes && nodes[leaf] == LeafNode([e]) && leaf !in spots && LeafOk(hash, [e], s.path)
    ensures NodesOk(hash, nodes, spots[leaf := s])
  {
    LoosePage(hash, nodes, spots, nodes, spots[leaf := s], leaf, s);
  }

  lemma BuildableLeaf(hash: HashFunction, entries: seq<Entry>, path: seq<nat>)
    requires Buildable(hash, entries, path) && FitsLeaf(entries)
    ensures LeafOk(hash, entries, path)
  {
    DistinctHashesKeys(hash, entries);
  }

  lemma BuildableDistinct(hash: HashFunction, entries: seq<Entry>, path: seq<nat>)
    requires Buildable(hash, entries, path)
    ensures DistinctHashes(hash, entries)
  {
  }

  lemma SeveralEntries(hash: HashFunction, entries: seq<Entry>, path: seq<nat>)
    requires Buildable(hash, entries, path) && |entries| != 1 && |EncodeAll(entries)| > CAPACITY
    ensures |path| < DIGITS
  {
    NothingEncoded();
    SeveralAreShallow(hash, entries, path);
  }

  lemma ChildIsOld(hash: HashFunction, nodes: Nodes, spots: Spots, p: nat, b: nat)
    requires NodesOk(hash, nodes, spots) && IsInner(nodes, p) && p in spots && b < BRANCHING_FACTOR
    ensures LeafPages(nodes[p].children[b]) <= spots.Keys && p !in LeafPages(nodes[p].children[b])
  {
    assert NodeOk(hash, nodes, spots, p) && ChildOk(nodes, spots, p, b);
  }

  lemma LoosePageOk(hash: HashFunction, nodes: Nodes, spots: Spots, q: nat, node: Node, s: Spot)
    requires NodesOk(hash, nodes, spots) && q !in nodes && node.LeafNode? && LeafOk(hash, node.entries, s.path)
    ensures NodesOk(hash, nodes[q := node], spots[q := s]) && q !in spots
  {
    LoosePage(hash, nodes, spots, nodes[q := node], spots[q := s], q, s);
  }

  lemma FillingParts(hash: HashFunction, nodes0: Nodes, spots0: Spots, nodes: Nodes, spots: Spots, n: nat, s: Spot,
                     entries: seq<Entry>, i: nat)
    requires Filling(hash, nodes0, spots0, nodes, spots, n, s, entries, i)
    ensures NodesOk(hash, nodes, spots) && IsInner(nodes, n) && n in spots && spots[n] == s
    ensures i < BRANCHING_FACTOR ==> nodes[n].children[i] == Empty
  {
  }

  lemma FillingParent(hash: HashFunction, nodes0: Nodes, spots0: Spots, nodes: Nodes, spots: Spots, n: nat, s: Spot,
                      entries: seq<Entry>, p: nat)
    requires Filling(hash, nodes0, spots0, nodes, spots, n, s, entries, BRANCHING_FACTOR) && p in spots0 && IsInner(nodes0, p)
    requires NodesOk(hash, nodes0, spots0)
    ensures NodesOk(hash, nodes, spots) && IsInner(nodes, p) && p in spots && spots[p] == spots0[p] && nodes[p] == nodes0[p]
    ensures n in spots && n != p && IsInner(nodes, n) && spots[n] == s
    ensures forall b :: 0 <= b < BRANCHING_FACTOR ==> n !in LeafPages(nodes[p].children[b])
  {
    hide LeafOk, SlotFilled, LinkOk;
    assert NodeOk(hash, nodes, spots, p);
    forall b | 0 <= b < BRANCHING_FACTOR ensures n !in LeafPages(nodes[p].children[b]) {
      assert ChildOk(nodes, spots, p, b);
    }
  }

  // ---- removal ----

  predicate OnlyChild(children: seq<Pointer>, j: nat) {
    && j < |children| && children[j] != Empty
    && forall i :: 0 <= i < |children| && i != j ==> children[i] == Empty
  }

  /** Slot `gb` of page `g` led to page `p` and now leads to the only child of `p`, which is freed. */
  function Collapsed(nodes: Nodes, g: nat, gb: nat, p: nat, sibling: Pointer): Nodes
    requires IsInner(nodes, g) && gb < BRANCHING_FACTOR
  {
    nodes[g := Inner(nodes[g].children[gb := sibling])] - {p}
  }

  lemma DroppedFinds(entries: seq<Entry>, i: nat, key: seq<Byte>)
    requires DistinctKeys(entries) && i < |entries|
    ensures DistinctKeys(Cut(entries, i))
    ensures Find(Cut(entries, i), key) == if key == entries[i].key then None else Find(entries, key)
  {
    hide Find, IndexOf;
    var rest := Cut(entries, i);
    DroppedMembers(entries, i);
    match Find(rest, key) {
      case Some(value) =>
        FindIff(rest, key, value);
        FindIff(entries, key, value);
      case None =>
        match Find(entries, key) {
          case Some(value) =>
            FindIff(entries, key, value);
            FindIff(rest, key, value);
          case None =>
        }
    }
  }

  lemma DroppedMembers(entries: seq<Entry>, i: nat)
    requires DistinctKeys(entries) && i < |entries|
    ensures DistinctKeys(Cut(entries, i))
    ensures forall e :: e in Cut(entries, i) <==> e in entries && e.key != entries[i].key
  {
    var rest := Cut(entries, i);
    assert forall k :: 0 <= k < |rest| ==> rest[k] == entries[if k < i then k else k + 1];
    forall e | e in entries && e.key != entries[i].key ensures e in rest {
      var k :| 0 <= k < |entries| && entries[k] == e;
      assert e == rest[if k < i then k else k - 1];
    }
  }

  lemma DroppedContents(hash: HashFunction, entries: seq<Entry>, i: nat, path: seq<nat>, contents: map<seq<Byte>,
                        seq<Byte>>, key: seq<Byte>)
    requires SlotHolds(hash, entries, path, contents) && i < |entries|
    ensures Stored(contents - {entries[i].key}, key)
         == if HasPrefix(hash(key), path) then Find(Cut(entries, i), key) else Stored(contents, key)
  {
    hide HasPrefix, Find;
    DroppedFinds(entries, i, key);
  }

  lemma DroppedLeafOk(hash: HashFunction, entries: seq<Entry>, i: nat, path: seq<nat>)
    requires LeafOk(hash, entries, path) && i < |entries| && |entries| > 1
    ensures LeafOk(hash, Cut(entries, i), path)
  {
    hide HasPrefix, EncodeAll, GoodEntry;
    var rest := Cut(entries, i);
    assert forall k :: 0 <= k < |rest| ==> rest[k] == entries[if k < i then k else k + 1];
    EncodeSplit(entries, i);
    EncodeConcat(entries[..i], entries[i + 1..]);
  }

  /** Nothing but the only child of a page has that page for a parent. */
  lemma OnlyChildSpots(hash: HashFunction, nodes: Nodes, spots: Spots, p: nat, j: nat, q: nat)
    requires TrieOk(hash, nodes, spots) && IsInner(nodes, p) && p in spots && OnlyChild(nodes[p].children, j)
    requires q in spots && q != ROOT_PAGE && spots[q].parent == p
    ensures q == nodes[p].children[j].page
  {
    hide NodeOk;
    assert LinkOk(nodes, spots, q);
  }

  /** When the only child that is left is a leaf, it can take the place of its parent. */
  lemma CollapseIsTrie(hash: HashFunction, nodes: Nodes, spots: Spots, g: nat, gb: nat, p: nat, j: nat, leaf: nat)
    requires TrieOk(hash, nodes, spots) && IsInner(nodes, g) && g in spots && gb < BRANCHING_FACTOR
    requires nodes[g].children[gb] == Internal(p) && IsInner(nodes, p) && p in spots
    requires OnlyChild(nodes[p].children, j) && nodes[p].children[j] == Leaf(leaf)
    ensures TrieOk(hash, Collapsed(nodes, g, gb, p, Leaf(leaf)), (spots - {p})[leaf := Spot(spots[g].path + [gb], g)])
    ensures leaf in nodes && leaf != g && leaf != p && g != p && Grafted(nodes, spots, Collapsed(nodes, g, gb, p, Leaf(leaf)), g, gb)
    ensures IsLeaf(nodes, leaf) && LeafOk(hash, nodes[leaf].entries, spots[p].path + [j]) && spots[p] == Spot(spots[g].path + [gb], g)
  {
    hide LeafOk, NodeOk, LinkOk;
    var nodes', spots' := Collapsed(nodes, g, gb, p, Leaf(leaf)), (spots - {p})[leaf := Spot(spots[g].path + [gb], g)];
    CollapseParts(hash, nodes, spots, g, gb, p, j, leaf);
    ShorterLeafOk(hash, nodes[leaf].entries, spots[p].path, j);
    forall q | q in spots' ensures q in nodes' && NodeOk(hash, nodes', spots', q) {
      CollapseNodeOk(hash, nodes, spots, g, gb, p, j, leaf, q);
    }
    forall q | q in spots' && q != ROOT_PAGE ensures LinkOk(nodes', spots', q) {
      CollapseLinkOk(hash, nodes, spots, g, gb, p, j, leaf, q);
    }
  }

  lemma CollapseParts(hash: HashFunction, nodes: Nodes, spots: Spots, g: nat, gb: nat, p: nat, j: nat, leaf: nat)
    requires TrieOk(hash, nodes, spots) && IsInner(nodes, g) && g in spots && gb < BRANCHING_FACTOR
    requires nodes[g].children[gb] == Internal(p) && IsInner(nodes, p) && p in spots
    requires OnlyChild(nodes[p].children, j) && nodes[p].children[j] == Leaf(leaf)
    ensures spots[p] == Spot(spots[g].path + [gb], g) && g != p && p != ROOT_PAGE
    ensures leaf in spots && IsLeaf(nodes, leaf) && spots[leaf] == Spot(spots[p].path + [j], p)
    ensures LeafOk(hash, nodes[leaf].entries, spots[p].path + [j])
  {
    hide LeafOk, LinkOk;
    assert NodeOk(hash, nodes, spots, g) && ChildOk(nodes, spots, g, gb);
    assert NodeOk(hash, nodes, spots, p) && ChildOk(nodes, spots, p, j);
    assert NodeOk(hash, nodes, spots, leaf);
  }

  lemma ShorterLeafOk(hash: HashFunction, entries: seq<Entry>, path: seq<nat>, j: nat)
    requires LeafOk(hash, entries, path + [j])
    ensures LeafOk(hash, entries, path)
  {
    hide HasPrefix;
    forall i | 0 <= i < |entries| ensures HasPrefix(hash(entries[i].key), path) {
      PrefixSnoc(hash(entries[i].key), path, j);
    }
  }

  lemma CollapseNodeOk(hash: HashFunction, nodes: Nodes, spots: Spots, g: nat, gb: nat, p: nat, j: nat, leaf: nat,
                       q: nat)
    requires TrieOk(hash, nodes, spots) && IsInner(nodes, g) && g in spots && gb < BRANCHING_FACTOR
    requires nodes[g].children[gb] == Internal(p) && IsInner(nodes, p) && p in spots && p != g
    requires OnlyChild(nodes[p].children, j) && nodes[p].children[j] == Leaf(leaf)
    requires leaf in spots && IsLeaf(nodes, leaf) && LeafOk(hash, nodes[leaf].entries, spots[p].path) && spots[p] == Spot(spots[g].path + [gb], g)
    requires spots[leaf] == Spot(spots[p].path + [j], p) && q in spots && q != p
    ensures var nodes', spots' := Collapsed(nodes, g, gb, p, Leaf(leaf)), (spots - {p})[leaf := Spot(spots[g].path + [gb], g)];
      q in nodes' && NodeOk(hash, nodes', spots', q)
  {
    hide LeafOk, LinkOk;
    var nodes', spots' := Collapsed(nodes, g, gb, p, Leaf(leaf)), (spots - {p})[leaf := Spot(spots[g].path + [gb], g)];
    assert NodeOk(hash, nodes, spots, q);
    if nodes[q].Inner? {
      forall i | 0 <= i < BRANCHING_FACTOR ensures ChildOk(nodes', spots', q, i) {
        assert ChildOk(nodes, spots, q, i);
        assert (spots[q].path + [i])[|spots[q].path|] == i && (spots[g].path + [gb])[|spots[g].path|] == gb;
      }
    }
  }

  lemma CollapseLinkOk(hash: HashFunction, nodes: Nodes, spots: Spots, g: nat, gb: nat, p: nat, j: nat, leaf: nat,
                       q: nat)
    requires TrieOk(hash, nodes, spots) && IsInner(nodes, g) && g in spots && gb < BRANCHING_FACTOR
    requires nodes[g].children[gb] == Internal(p) && IsInner(nodes, p) && p in spots && p != g
    requires OnlyChild(nodes[p].children, j) && nodes[p].children[j] == Leaf(leaf)
    requires leaf in spots && IsLeaf(nodes, leaf) && spots[p] == Spot(spots[g].path + [gb], g)
    requires q in spots && q != p && q != ROOT_PAGE
    ensures var nodes', spots' := Collapsed(nodes, g, gb, p, Leaf(leaf)), (spots - {p})[leaf := Spot(spots[g].path + [gb], g)];
      q in nodes' && LinkOk(nodes', spots', q)
  {
    hide NodesOk, LinkOk, LeafOk, PointerTo;
    SpotsHaveNodes(hash, nodes, spots);
    assert LinkOk(nodes, spots, q);
    if q == leaf {
      CollapsedLeafLink(nodes, spots, g, gb, p, leaf);
    } else {
      if spots[q].parent == p {
        OnlyChildSpots(hash, nodes, spots, p, j, q);
      }
      OtherLink(nodes, spots, g, gb, p, leaf, q);
    }
  }

  lemma CollapsedLeafLink(nodes: Nodes, spots: Spots, g: nat, gb: nat, p: nat, leaf: nat)
    requires IsInner(nodes, g) && g in spots && gb < BRANCHING_FACTOR && p != g && IsLeaf(nodes, leaf) && leaf != p
    ensures LinkOk(Collapsed(nodes, g, gb, p, Leaf(leaf)), (spots - {p})[leaf := Spot(spots[g].path + [gb], g)], leaf)
  {
    var path := spots[g].path + [gb];
    assert path[..|path| - 1] == spots[g].path && path[|path| - 1] == gb;
  }

  lemma OtherLink(nodes: Nodes, spots: Spots, g: nat, gb: nat, p: nat, leaf: nat, q: nat)
    requires IsInner(nodes, g) && g in spots && gb < BRANCHING_FACTOR && p != g && IsLeaf(nodes, leaf)
    requires nodes[g].children[gb] == Internal(p)
    requires q in nodes && q in spots && q != p && q != leaf && LinkOk(nodes, spots, q) && spots[q].parent != p
    ensures LinkOk(Collapsed(nodes, g, gb, p, Leaf(leaf)), (spots - {p})[leaf := Spot(spots[g].path + [gb], g)], q)
  {
  }

  /** The collapse onto a leaf leaves the map as it was. */
  lemma CollapseAgrees(hash: HashFunction, nodes: Nodes, spots: Spots, g: nat, gb: nat, p: nat, j: nat, leaf: nat,
                       contents: map<seq<Byte>, seq<Byte>>)
    requires TrieOk(hash, nodes, spots) && IsInner(nodes, g) && g in spots && gb < BRANCHING_FACTOR && Agrees(hash, nodes, contents)
    requires nodes[g].children[gb] == Internal(p) && IsInner(nodes, p) && p in spots
    requires OnlyChild(nodes[p].children, j) && nodes[p].children[j] == Leaf(leaf)
    ensures var nodes' := Collapsed(nodes, g, gb, p, Leaf(leaf));
      TrieOk(hash, nodes', (spots - {p})[leaf := Spot(spots[g].path + [gb], g)]) && Agrees(hash, nodes', contents)
  {
    var nodes', spots' := Collapsed(nodes, g, gb, p, Leaf(leaf)), (spots - {p})[leaf := Spot(spots[g].path + [gb], g)];
    CollapseIsTrie(hash, nodes, spots, g, gb, p, j, leaf);
    forall key ensures Get(hash, nodes', key) == Stored(contents, key) {
      CollapseGet(hash, nodes, spots, nodes', spots', g, gb, p, j, leaf, key);
      assert Get(hash, nodes, key) == Stored(contents, key);
    }
  }

  lemma CollapseGet(hash: HashFunction, nodes: Nodes, spots: Spots, nodes': Nodes, spots': Spots, g: nat, gb: nat,
                    p: nat, j: nat,
                    leaf: nat, key: seq<Byte>)
    requires TrieOk(hash, nodes, spots) && TrieOk(hash, nodes', spots') && Grafted(nodes, spots, nodes', g, gb)
    requires g in spots' && spots'[g] == spots[g] && nodes[g].children[gb] == Internal(p) && IsInner(nodes, p) && p in spots
    requires spots[p] == Spot(spots[g].path + [gb], g) && OnlyChild(nodes[p].children, j) && nodes[p].children[j] == Leaf(leaf)
    requires nodes'[g].children[gb] == Leaf(leaf) && IsLeaf(nodes, leaf) && leaf in nodes' && nodes'[leaf] == nodes[leaf]
    requires LeafOk(hash, nodes[leaf].entries, spots[p].path + [j])
    ensures Get(hash, nodes', key) == Get(hash, nodes, key)
  {
    hide Digit, HasPrefix, LeafOk, NodeOk, LinkOk, Find;
    GraftEffect(hash, nodes, spots, nodes', spots', g, gb, key);
    var path := spots[p].path;
    if HasPrefix(hash(key), path) {
      var d := Digit(hash(key), |path|);
      PrefixSnoc(hash(key), path, d);
      PrefixSnoc(hash(key), path, j);
      LookupInSlot(hash, nodes, spots, p, d, key);
      if d != j {
        NotAmong(hash, nodes[leaf].entries, path + [j], key);
      }
    }
  }

  lemma NotAmong(hash: HashFunction, entries: seq<Entry>, path: seq<nat>, key: seq<Byte>)
    requires LeafOk(hash, entries, path) && !HasPrefix(hash(key), path)
    ensures Find(entries, key) == None
  {
    hide HasPrefix, EncodeAll;
  }

  /** A key that does not have the digits of a page is not found at or below it, at whatever depth the
      search has come to believe it is. */
  lemma {:induction false} NotBelow(hash: HashFunction, nodes: Nodes, spots: Spots, nodes': Nodes, g: nat, p: nat,
                                    q: nat, d: nat, key: seq<Byte>)
    requires NodesOk(hash, nodes, spots) && g in spots && p in spots && q in spots && !HasPrefix(hash(key), spots[q].path)
    requires |spots[q].path| > |spots[p].path| && |spots[q].path| > |spots[g].path|
    requires forall x :: x in spots && x != g && x != p ==> x in nodes' && x in nodes && nodes'[x] == nodes[x]
    ensures LookupAt(hash, nodes', PointerTo(nodes, q), d, key) == None
    decreases DIGITS - d
  {
    hide Digit, HasPrefix, LeafOk, Find;
    assert NodeOk(hash, nodes, spots, q);
    if nodes[q].LeafNode? {
      NotAmong(hash, nodes[q].entries, spots[q].path, key);
    } else if d < DIGITS {
      var i := Digit(hash(key), d);
      assert ChildOk(nodes, spots, q, i);
      var child := nodes[q].children[i];
      if child != Empty {
        PrefixSnoc(hash(key), spots[q].path, i);
        NotBelow(hash, nodes, spots, nodes', g, p, child.page, d + 1, key);
      }
    }
  }

  /** The way to a page does not depend on what is below it. */
  lemma {:induction false} WayTo(hash: HashFunction, nodes: Nodes, spots: Spots, nodes': Nodes, g: nat, p: nat,
                                 q: nat, key: seq<Byte>)
    requires TrieOk(hash, nodes, spots) && g in spots && p in spots && IsInner(nodes, q) && q in spots
    requires HasPrefix(hash(key), spots[q].path) && |spots[q].path| <= |spots[g].path| < |spots[p].path|
    requires forall x :: x in spots && x != g && x != p ==> x in nodes' && x in nodes && nodes'[x] == nodes[x]
    ensures Get(hash, nodes', key) == LookupAt(hash, nodes', Internal(q), |spots[q].path|, key)
    decreases |spots[q].path|
  {
    hide Digit, HasPrefix, LookupAt, TrieOk, LinkOk, NodeOk;
    Parent(hash, nodes, spots, q);
    if q != ROOT_PAGE {
      ThroughParent(hash, nodes, spots, nodes', q, key);
      WayTo(hash, nodes, spots, nodes', g, p, spots[q].parent, key);
    }
  }

  lemma Parent(hash: HashFunction, nodes: Nodes, spots: Spots, q: nat)
    requires TrieOk(hash, nodes, spots) && q in spots
    ensures q == ROOT_PAGE ==> spots[q].path == []
    ensures q in nodes && NodeOk(hash, nodes, spots, q)
    ensures q != ROOT_PAGE ==>
              var s := spots[q];
              && LinkOk(nodes, spots, q) && s.path != [] && IsInner(nodes, s.parent) && s.parent in spots
              && |spots[s.parent].path| == |s.path| - 1
  {
    hide NodeOk;
  }

  lemma ThroughParent(hash: HashFunction, nodes: Nodes, spots: Spots, nodes': Nodes, q: nat, key: seq<Byte>)
    requires q in spots && IsInner(nodes, q) && LinkOk(nodes, spots, q) && NodeOk(hash, nodes, spots, q)
    requires HasPrefix(hash(key), spots[q].path)
    requires var parent := spots[q].parent; parent in nodes' && nodes'[parent] == nodes[parent]
    ensures HasPrefix(hash(key), spots[spots[q].parent].path)
    ensures LookupAt(hash, nodes', Internal(spots[q].parent), |spots[q].path| - 1, key)
         == LookupAt(hash, nodes', Internal(q), |spots[q].path|, key)
  {
    hide Digit;
    var path := spots[q].path;
    assert path[|path| - 1] == Digit(hash(key), |path| - 1);
  }

  /** A key that is nowhere stored is nowhere found, at whatever depth the search believes to be. */
  lemma {:induction false} NowhereFound(hash: HashFunction, nodes: Nodes, spots: Spots, nodes': Nodes, g: nat,
                                        p: nat, q: nat, d: nat, key: seq<Byte>)
    requires TrieOk(hash, nodes, spots) && g in spots && p in spots && q in spots && Get(hash, nodes, key) == None
    requires |spots[q].path| > |spots[p].path| && |spots[q].path| > |spots[g].path|
    requires forall x :: x in spots && x != g && x != p ==> x in nodes' && x in nodes && nodes'[x] == nodes[x]
    ensures LookupAt(hash, nodes', PointerTo(nodes, q), d, key) == None
    decreases DIGITS - d
  {
    hide Digit, HasPrefix, LinkOk, Find, Get;
    assert NodeOk(hash, nodes, spots, q);
    if nodes[q].LeafNode? {
      hide LeafOk;
      if HasPrefix(hash(key), spots[q].path) {
        LookupThrough(hash, nodes, spots, q, key);
      } else {
        NotAmong(hash, nodes[q].entries, spots[q].path, key);
      }
    } else if d < DIGITS {
      var i := Digit(hash(key), d);
      assert ChildOk(nodes, spots, q, i);
      var child := nodes[q].children[i];
      if child != Empty {
        NowhereFound(hash, nodes, spots, nodes', g, p, child.page, d + 1, key);
      }
    }
  }

  /** The depth at which the search for a key ends. */
  function EndDepth(hash: HashFunction, nodes: Nodes, p: Pointer, d: nat, key: seq<Byte>): nat
    decreases DIGITS - d
  {
    if p.Internal? && d < DIGITS && IsInner(nodes, p.page) then
      EndDepth(hash, nodes, nodes[p.page].children[Digit(hash(key), d)], d + 1, key)
    else
      d
  }

  /** On its way from a pointer at depth `d` to its leaf, the key takes slot `j` on every level. */
  predicate TakesOnly(hash: HashFunction, nodes: Nodes, p: Pointer, d: nat, j: nat, key: seq<Byte>) {
    forall i :: d <= i < EndDepth(hash, nodes, p, d, key) ==> Digit(hash(key), i) == j
  }

  lemma {:induction false} EndsNotAbove(hash: HashFunction, nodes: Nodes, p: Pointer, d: nat, key: seq<Byte>)
    ensures EndDepth(hash, nodes, p, d, key) >= d
    decreases DIGITS - d
  {
    hide Digit;
    if p.Internal? && d < DIGITS && IsInner(nodes, p.page) {
      EndsNotAbove(hash, nodes, nodes[p.page].children[Digit(hash(key), d)], d + 1, key);
    }
  }

  /** What the search finds when it is one level too high: a stored key that takes slot `j` all the way,
      where the last digit used was `j` too, and no other. */
  lemma {:induction false} ShiftedFinds(hash: HashFunction, nodes: Nodes, spots: Spots, nodes': Nodes, g: nat,
                                        p: nat, q: nat, j: nat, key: seq<Byte>)
    requires NodesOk(hash, nodes, spots) && g in spots && p in spots && q in spots && HasPrefix(hash(key), spots[q].path)
    requires |spots[q].path| > |spots[p].path| && |spots[q].path| > |spots[g].path|
    requires spots[q].path[|spots[q].path| - 1] == j
    requires forall x :: x in spots && x != g && x != p ==> x in nodes' && x in nodes && nodes'[x] == nodes[x]
    ensures var d := |spots[q].path|;
      LookupAt(hash, nodes', PointerTo(nodes, q), d - 1, key) ==
      if LookupAt(hash, nodes, PointerTo(nodes, q), d, key) == None then LookupAt(hash, nodes', PointerTo(nodes, q), d - 1, key)
      else if TakesOnly(hash, nodes, PointerTo(nodes, q), d, j, key) then LookupAt(hash, nodes, PointerTo(nodes, q), d, key)
      else None
    decreases DIGITS - |spots[q].path|
  {
    hide Digit, LeafOk, Find;
    assert NodeOk(hash, nodes, spots, q);
    var d := |spots[q].path|;
    if nodes[q].Inner? && LookupAt(hash, nodes, PointerTo(nodes, q), d, key) != None {
      assert Digit(hash(key), d - 1) == j;
      var i := Digit(hash(key), d);
      assert ChildOk(nodes, spots, q, i) && ChildOk(nodes, spots, q, j);
      var child, wrong := nodes[q].children[i], nodes[q].children[j];
      PrefixSnoc(hash(key), spots[q].path, i);
      PrefixSnoc(hash(key), spots[q].path, j);
      EndsNotAbove(hash, nodes, child, d + 1, key);
      assert LookupAt(hash, nodes, child, d + 1, key) != None;
      if i == j {
        ShiftedFinds(hash, nodes, spots, nodes', g, p, child.page, j, key);
        TakesOnlyStep(hash, nodes, q, d, j, key);
      } else {
        assert !TakesOnly(hash, nodes, PointerTo(nodes, q), d, j, key);
        if wrong != Empty {
          hide HasPrefix;
          NotBelow(hash, nodes, spots, nodes', g, p, wrong.page, d, key);
        }
      }
    }
  }

  lemma TakesOnlyStep(hash: HashFunction, nodes: Nodes, q: nat, d: nat, j: nat, key: seq<Byte>)
    requires d < DIGITS && IsInner(nodes, q) && Digit(hash(key), d) == j
    ensures TakesOnly(hash, nodes, Internal(q), d, j, key) <==> TakesOnly(hash, nodes, nodes[q].children[j], d + 1, j, key)
  {
    hide Digit;
    assert EndDepth(hash, nodes, Internal(q), d, key) == EndDepth(hash, nodes, nodes[q].children[j], d + 1, key);
  }

  /** When the only child that is left is an internal node, in slot `j`, moving it up one level leaves the
      map as it was if and only if every key stored below it takes slot `j` on all levels down to its leaf. */
  lemma CollapseKeepsIff(hash: HashFunction, nodes: Nodes, spots: Spots, g: nat, gb: nat, p: nat, j: nat, s: nat)
    requires TrieOk(hash, nodes, spots) && IsInner(nodes, g) && g in spots && gb < BRANCHING_FACTOR
    requires nodes[g].children[gb] == Internal(p) && IsInner(nodes, p) && p in spots
    requires OnlyChild(nodes[p].children, j) && nodes[p].children[j] == Internal(s)
    ensures (forall key :: Get(hash, Collapsed(nodes, g, gb, p, Internal(s)), key) == Get(hash, nodes, key))
       <==> (forall key :: Get(hash, nodes, key) != None && HasPrefix(hash(key), spots[p].path) ==>
               TakesOnly(hash, nodes, Internal(s), |spots[p].path| + 1, j, key))
  {
    hide Digit, HasPrefix, LeafOk, LinkOk, Find, TakesOnly, LookupAt, Get;
    var nodes' := Collapsed(nodes, g, gb, p, Internal(s));
    forall key
      ensures Get(hash, nodes', key) == Get(hash, nodes, key) <==>
              (Get(hash, nodes, key) != None && HasPrefix(hash(key), spots[p].path) ==>
                 TakesOnly(hash, nodes, Internal(s), |spots[p].path| + 1, j, key))
    {
      CollapsedKey(hash, nodes, spots, g, gb, p, j, s, key);
    }
  }

  lemma CollapsedKey(hash: HashFunction, nodes: Nodes, spots: Spots, g: nat, gb: nat, p: nat, j: nat, s: nat,
                     key: seq<Byte>)
    requires TrieOk(hash, nodes, spots) && IsInner(nodes, g) && g in spots && gb < BRANCHING_FACTOR
    requires nodes[g].children[gb] == Internal(p) && IsInner(nodes, p) && p in spots
    requires OnlyChild(nodes[p].children, j) && nodes[p].children[j] == Internal(s)
    ensures var nodes' := Collapsed(nodes, g, gb, p, Internal(s));
      Get(hash, nodes', key) ==
      if Get(hash, nodes, key) != None && HasPrefix(hash(key), spots[p].path)
         && !TakesOnly(hash, nodes, Internal(s), |spots[p].path| + 1, j, key)
      then None else Get(hash, nodes, key)
  {
    hide Digit, HasPrefix, LeafOk, LinkOk, Find, TakesOnly;
    var nodes', m := Collapsed(nodes, g, gb, p, Internal(s)), |spots[p].path|;
    assert NodeOk(hash, nodes, spots, g) && ChildOk(nodes, spots, g, gb);
    assert NodeOk(hash, nodes, spots, p) && ChildOk(nodes, spots, p, j);
    assert NodeOk(hash, nodes, spots, s);
    if !HasPrefix(hash(key), spots[p].path) {
      EmptyPrefix(hash(key));
      LookupBeside(hash, nodes, spots, nodes', g, gb, ROOT_PAGE, key);
    } else {
      var d := Digit(hash(key), m);
      PrefixSnoc(hash(key), spots[p].path, d);
      PrefixSnoc(hash(key), spots[p].path, j);
      PrefixSnoc(hash(key), spots[g].path, gb);
      LookupInSlot(hash, nodes, spots, p, d, key);
      WayTo(hash, nodes, spots, nodes', g, p, g, key);
      assert Get(hash, nodes', key) == LookupAt(hash, nodes', Internal(s), m, key);
      if Get(hash, nodes, key) == None {
        NowhereFound(hash, nodes, spots, nodes', g, p, s, m, key);
      } else {
        assert d == j;
        assert spots[s].path[|spots[s].path| - 1] == j;
        ShiftedFinds(hash, nodes, spots, nodes', g, p, s, j, key);
      }
    }
  }

  lemma EmptyPrefix(h: nat)
    ensures HasPrefix(h, [])
  {
  }

  lemma HangsBelow(hash: HashFunction, nodes: Nodes, spots: Spots, g: nat, gb: nat, p: nat)
    requires TrieOk(hash, nodes, spots) && IsInner(nodes, g) && g in spots && gb < BRANCHING_FACTOR
    requires nodes[g].children[gb] == Internal(p)
    ensures g != p && p != ROOT_PAGE && p in spots && spots[p] == Spot(spots[g].path + [gb], g)
  {
    assert NodeOk(hash, nodes, spots, g) && ChildOk(nodes, spots, g, gb);
  }

  lemma SlotSetOther(nodes: Nodes, spots: Spots, nodes': Nodes, spots': Spots, p: nat, b: nat, ptr: Pointer, q: nat)
    requires SlotSet(nodes, spots, nodes', spots', p, b, ptr) && q in nodes && nodes[q].Inner? && q in spots && q != p
    requires forall x :: x in LeafPages(nodes[p].children[b]) ==> x in nodes && nodes[x].LeafNode?
    ensures q in nodes' && nodes'[q] == nodes[q] && q in spots' && spots'[q] == spots[q]
  {
  }

  // ---- parts of values ----

  /** Where a part is written: an append starts at the end. */
  function PartOffset(value: seq<Byte>, offset: Option<nat>): nat {
    match offset
    case None => |value|
    case Some(at) => at
  }

  /** Without an offset, the buffer is appended. */
  lemma AppendIsConcat(value: seq<Byte>, buffer: seq<Byte>)
    ensures PartWritten(value, PartOffset(value, None), buffer) == value + buffer
  {
  }

  lemma StoredKeyOk(hash: HashFunction, entries: seq<Entry>, path: seq<nat>, contents: map<seq<Byte>, seq<Byte>>,
                    i: nat)
    requires SlotHolds(hash, entries, path, contents) && i < |entries|
    ensures GoodEntry(entries[i])
  {
    hide HasPrefix;
  }

  lemma SeparateSubset(hash: HashFunction, keys: set<seq<Byte>>, key: seq<Byte>)
    requires Separate(hash, keys + {key})
    ensures Separate(hash, keys)
  {
  }

  /** The slot at which the search for a key ends: it is empty, or points to a leaf. */
  function SlotOf(hash: HashFunction, nodes: Nodes, q: nat, d: nat, key: seq<Byte>): (nat, nat)
    decreases DIGITS - d
  {
    if d < DIGITS && IsInner(nodes, q) then
      var b := Digit(hash(key), d);
      if nodes[q].children[b].Internal? then SlotOf(hash, nodes, nodes[q].children[b].page, d + 1, key) else (q, b)
    else
      (q, 0)
  }

  /** Below a page deeper than `p`, searches end where they ended. */
  lemma {:induction false} EndDepthBelow(hash: HashFunction, nodes: Nodes, spots: Spots, nodes': Nodes, p: nat,
                                         gone: Pointer, q: nat, key: seq<Byte>)
    requires NodesOk(hash, nodes, spots) && p in spots && q in spots
    requires forall x :: x in spots && x in nodes && x != p && Leaf(x) != gone ==> x in nodes' && nodes'[x] == nodes[x]
    requires gone.Leaf? ==> gone.page in spots && |spots[gone.page].path| == |spots[p].path| + 1
    requires |spots[q].path| > |spots[p].path| && Leaf(q) != gone
    ensures EndDepth(hash, nodes', PointerTo(nodes, q), |spots[q].path|, key) == EndDepth(hash, nodes, PointerTo(nodes, q), |spots[q].path|, key)
    decreases DIGITS - |spots[q].path|
  {
    hide Digit, LeafOk;
    assert NodeOk(hash, nodes, spots, q);
    if nodes[q].Inner? {
      var i := Digit(hash(key), |spots[q].path|);
      assert ChildOk(nodes, spots, q, i);
      var child := nodes[q].children[i];
      if child != Empty {
        EndDepthBelow(hash, nodes, spots, nodes', p, gone, child.page, key);
      }
    }
  }

  /** Emptying the slot of a leaf does not change the way of keys through another child of its page. */
  lemma SameWays(hash: HashFunction, nodes: Nodes, spots: Spots, nodes': Nodes, spots': Spots, p: nat, b: nat,
                 j: nat, d: nat)
    requires NodesOk(hash, nodes, spots) && SlotSet(nodes, spots, nodes', spots', p, b, Empty) && d == |spots[p].path| + 1
    requires nodes[p].children[b].Leaf? && j < BRANCHING_FACTOR && j != b && nodes[p].children[j].Internal?
    ensures forall key :: TakesOnly(hash, nodes', nodes[p].children[j], d, j, key) <==> TakesOnly(hash, nodes, nodes[p].children[j], d, j, key)
  {
    hide Digit, LeafOk;
    assert NodeOk(hash, nodes, spots, p) && ChildOk(nodes, spots, p, b) && ChildOk(nodes, spots, p, j);
    forall key ensures TakesOnly(hash, nodes', nodes[p].children[j], d, j, key) <==> TakesOnly(hash, nodes, nodes[p].children[j], d, j, key) {
      EndDepthBelow(hash, nodes, spots, nodes', p, nodes[p].children[b], nodes[p].children[j].page, key);
    }
  }

  /** The map after an internal node moved up a level agrees with the contents exactly when no key went the
      wrong way. */
  lemma CollapsedAgreesIff(hash: HashFunction, nodes: Nodes, spots: Spots, g: nat, gb: nat, p: nat, j: nat, s: nat,
                           contents: map<seq<Byte>, seq<Byte>>)
    requires TrieOk(hash, nodes, spots) && IsInner(nodes, g) && g in spots && gb < BRANCHING_FACTOR && Agrees(hash, nodes, contents)
    requires nodes[g].children[gb] == Internal(p) && IsInner(nodes, p) && p in spots
    requires OnlyChild(nodes[p].children, j) && nodes[p].children[j] == Internal(s)
    ensures FindsNothingElse(hash, Collapsed(nodes, g, gb, p, Internal(s)), contents)
    ensures Agrees(hash, Collapsed(nodes, g, gb, p, Internal(s)), contents) <==>
            forall key :: key in contents && HasPrefix(hash(key), spots[p].path) ==>
              TakesOnly(hash, nodes, Internal(s), |spots[p].path| + 1, j, key)
  {
    hide HasPrefix, TakesOnly, TrieOk, Get;
    var nodes' := Collapsed(nodes, g, gb, p, Internal(s));
    forall key
      ensures Get(hash, nodes', key) == None || Get(hash, nodes', key) == Stored(contents, key)
      ensures Get(hash, nodes', key) == Stored(contents, key) <==>
              (key in contents && HasPrefix(hash(key), spots[p].path) ==> TakesOnly(hash, nodes, Internal(s), |spots[p].path| + 1, j, key))
    {
      CollapsedKey(hash, nodes, spots, g, gb, p, j, s, key);
      assert Get(hash, nodes, key) == Stored(contents, key);
    }
  }

  /** A missing key gets what was asked for exactly when that starts at offset 0. */
  lemma MissingPart(contents: map<seq<Byte>, seq<Byte>>, key: seq<Byte>, offset: nat, buffer: seq<Byte>)
    ensures contents[key := (Zeros(offset) + buffer)[..|buffer|]] == contents[key := PartWritten([], offset, buffer)]
       <==> offset == 0
  {
    var stored, wanted := contents[key := (Zeros(offset) + buffer)[..|buffer|]], contents[key := PartWritten([], offset, buffer)];
    assert stored == wanted ==> stored[key] == wanted[key];
    if offset == 0 {
      assert (Zeros(offset) + buffer)[..|buffer|] == PartWritten([], offset, buffer);
    }
  }

  /** Removing the key moves an internal node, the child in slot `j`, up a level: the key is alone in its
      leaf, and its page below the root has that one other child. */
  ghost predicate CollapsesAt(hash: HashFunction, nodes: Nodes, spots: Spots, key: seq<Byte>, j: nat) {
    var (p, b) := SlotOf(hash, nodes, ROOT_PAGE, 0, key);
    && IsInner(nodes, p) && p in spots && p != ROOT_PAGE && b < BRANCHING_FACTOR && nodes[p].children[b].Leaf?
    && IsLeaf(nodes, nodes[p].children[b].page) && |nodes[nodes[p].children[b].page].entries| == 1
    && j < BRANCHING_FACTOR && OnlyChild(nodes[p].children[b := Empty], j) && nodes[p].children[j].Internal?
  }

  /** Another key below the node that moves up does not take slot `j` on all levels down to its leaf. */
  ghost predicate GoesAstray(hash: HashFunction, nodes: Nodes, spots: Spots, contents: map<seq<Byte>, seq<Byte>>,
                             key: seq<Byte>, j: nat, other: seq<Byte>)
    requires CollapsesAt(hash, nodes, spots, key, j)
  {
    var p := SlotOf(hash, nodes, ROOT_PAGE, 0, key).0;
    && other in contents && other != key && HasPrefix(hash(other), spots[p].path)
    && !TakesOnly(hash, nodes, nodes[p].children[j], |spots[p].path| + 1, j, other)
  }

  ghost predicate OthersLost(hash: HashFunction, nodes: Nodes, spots: Spots, contents: map<seq<Byte>, seq<Byte>>, key: seq<Byte>) {
    exists j, other :: CollapsesAt(hash, nodes, spots, key, j) && GoesAstray(hash, nodes, spots, contents, key, j, other)
  }

  /** No node moves up when the page of the key is the root, or keeps several children or none, or a leaf. */
  lemma NothingMovesUp(hash: HashFunction, nodes: Nodes, spots: Spots, contents: map<seq<Byte>, seq<Byte>>, key: seq<Byte>,
                       p: nat, b: nat)
    requires (p, b) == SlotOf(hash, nodes, ROOT_PAGE, 0, key) && IsInner(nodes, p) && b < BRANCHING_FACTOR
    requires p == ROOT_PAGE || forall j: nat :: j < BRANCHING_FACTOR && OnlyChild(nodes[p].children[b := Empty], j) ==> !nodes[p].children[j].Internal?
    ensures !(exists j :: CollapsesAt(hash, nodes, spots, key, j)) && !OthersLost(hash, nodes, spots, contents, key)
  {
    hide SlotOf, GoesAstray;
  }

  /** The map after the key is removed and the internal node left moves up agrees with the contents exactly when
      no other key is lost. */
  lemma MovedUpAgreesIff(hash: HashFunction, nodes: Nodes, spots: Spots, nodes1: Nodes, spots1: Spots,
                         contents: map<seq<Byte>, seq<Byte>>, key: seq<Byte>, g: nat, gb: nat, p: nat, b: nat, j: nat)
    requires NodesOk(hash, nodes, spots) && SlotSet(nodes, spots, nodes1, spots1, p, b, Empty)
    requires (p, b) == SlotOf(hash, nodes, ROOT_PAGE, 0, key) && p in spots1 && spots1[p] == spots[p] && p != ROOT_PAGE
    requires nodes[p].children[b].Leaf? && IsLeaf(nodes, nodes[p].children[b].page)
    requires |nodes[nodes[p].children[b].page].entries| == 1
    requires TrieOk(hash, nodes1, spots1) && Agrees(hash, nodes1, contents - {key})
    requires IsInner(nodes1, g) && g in spots1 && gb < BRANCHING_FACTOR && nodes1[g].children[gb] == Internal(p)
    requires IsInner(nodes1, p) && OnlyChild(nodes1[p].children, j) && nodes1[p].children[j].Internal?
    ensures var nodes' := Collapsed(nodes1, g, gb, p, nodes1[p].children[j]);
      && CollapsesAt(hash, nodes, spots, key, j) && FindsNothingElse(hash, nodes', contents - {key})
      && (Agrees(hash, nodes', contents - {key}) <==> !OthersLost(hash, nodes, spots, contents, key))
  {
    hide SlotOf, TrieOk, Agrees, FindsNothingElse, TakesOnly, HasPrefix, NodesOk, SlotSet;
    SlotSetChildren(nodes, spots, nodes1, spots1, p, b);
    var child, d := nodes1[p].children[j], |spots[p].path| + 1;
    SameWays(hash, nodes, spots, nodes1, spots1, p, b, j, d);
    CollapsedAgreesIff(hash, nodes1, spots1, g, gb, p, j, child.page, contents - {key});
    forall other ensures other in contents - {key} && HasPrefix(hash(other), spots[p].path) && !TakesOnly(hash, nodes1, child, d, j, other)
                    <==> GoesAstray(hash, nodes, spots, contents, key, j, other) {
    }
    forall j' | CollapsesAt(hash, nodes, spots, key, j') ensures j' == j {
    }
  }

  lemma SlotSetChildren(nodes: Nodes, spots: Spots, nodes': Nodes, spots': Spots, p: nat, b: nat)
    requires SlotSet(nodes, spots, nodes', spots', p, b, Empty)
    ensures IsInner(nodes, p) && p in spots && b < BRANCHING_FACTOR && p in nodes' && nodes'[p] == Inner(nodes[p].children[b := Empty])
  {
  }

  /** The stored keys that can be found. */
  ghost function Findable(hash: HashFunction, nodes: Nodes, contents: map<seq<Byte>, seq<Byte>>): set<seq<Byte>> {
    set key | key in contents && Get(hash, nodes, key) == Some(contents[key])
  }

  /** All of them can be found exactly when as many can as are stored. */
  lemma AllFindable(hash: HashFunction, nodes: Nodes, contents: map<seq<Byte>, seq<Byte>>)
    ensures |Findable(hash, nodes, contents)| <= |contents|
    ensures |Findable(hash, nodes, contents)| == |contents| <==>
            forall key :: key in contents ==> Get(hash, nodes, key) == Some(contents[key])
  {
    hide Get;
    var found := Findable(hash, nodes, contents);
    SubsetSize(found, contents.Keys);
    if |found| == |contents| {
      forall key | key in contents ensures Get(hash, nodes, key) == Some(contents[key]) {
        assert key in found;
      }
    } else {
      assert found != contents.Keys;
      var key :| key in contents && key !in found;
    }
  }

  /** The map agrees with what was stored exactly when as many keys can be found as are stored. */
  lemma AgreesWhenAllFound(hash: HashFunction, nodes: Nodes, contents: map<seq<Byte>, seq<Byte>>)
    requires FindsNothingElse(hash, nodes, contents)
    ensures Agrees(hash, nodes, contents) <==> |Findable(hash, nodes, contents)| == |contents|
  {
    hide Get;
    AllFindable(hash, nodes, contents);
    assert Agrees(hash, nodes, contents) ==> forall key :: key in contents ==> Get(hash, nodes, key) == Stored(contents, key);
  }
}
