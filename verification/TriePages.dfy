/** Which pages the trie consists of: none is leaked, and a removal frees exactly what it should. */
module TriePages {
  import opened Bytes
  import opened Basics
  import opened LeafCodec
  import opened HashTrie
  import opened TrieEdits

  // ---- no page is leaked ----

  /** The page hangs in the slot its spot names, of a page that is nearer to the root. */
  ghost predicate HangsNearer(nodes: Nodes, spots: Spots, p: nat)
    requires p in nodes && p in spots
  {
    var s := spots[p];
    && s.path != [] && IsInner(nodes, s.parent) && s.parent in spots && |spots[s.parent].path| < |s.path|
    && s.path[|s.path| - 1] < BRANCHING_FACTOR
    && nodes[s.parent].children[s.path[|s.path| - 1]] == PointerTo(nodes, p)
  }

  /** Every page in use but the root hangs below another one, and every pointer leads to a page in use. */
  ghost predicate NoPageLost(nodes: Nodes, spots: Spots) {
    && nodes.Keys == spots.Keys && IsInner(nodes, ROOT_PAGE)
    && (forall p :: p in nodes && p != ROOT_PAGE ==> HangsNearer(nodes, spots, p))
    && (forall p, b {:trigger nodes[p].children[b]} ::
          IsInner(nodes, p) && 0 <= b < BRANCHING_FACTOR && nodes[p].children[b] != Empty ==>
            nodes[p].children[b].page in nodes && nodes[p].children[b] == PointerTo(nodes, nodes[p].children[b].page))
  }

  lemma TrieLosesNoPage(hash: HashFunction, nodes: Nodes, spots: Spots)
    requires TrieOk(hash, nodes, spots) && nodes.Keys == spots.Keys
    ensures NoPageLost(nodes, spots)
  {
    hide LeafOk;
    forall p | p in nodes && p != ROOT_PAGE ensures HangsNearer(nodes, spots, p) {
      assert LinkOk(nodes, spots, p);
    }
    forall p, b | IsInner(nodes, p) && 0 <= b < BRANCHING_FACTOR && nodes[p].children[b] != Empty
      ensures nodes[p].children[b].page in nodes && nodes[p].children[b] == PointerTo(nodes, nodes[p].children[b].page)
    {
      assert NodeOk(hash, nodes, spots, p) && ChildOk(nodes, spots, p, b);
    }
  }

  /** Where the slots of a way lead, from the root on. */
  function WayEnd(nodes: Nodes, way: seq<nat>): Pointer {
    if way == [] then Internal(ROOT_PAGE)
    else
      var n := |way| - 1;
      var end := WayEnd(nodes, way[..n]);
      if end.Internal? && IsInner(nodes, end.page) && way[n] < BRANCHING_FACTOR then nodes[end.page].children[way[n]] else Empty
  }

  /** Then every page in use can be reached from the root, so that none is leaked. */
  lemma {:induction false} EveryPageIsReached(nodes: Nodes, spots: Spots, p: nat) returns (way: seq<nat>)
    requires NoPageLost(nodes, spots) && p in nodes
    decreases |spots[p].path|
    ensures WayEnd(nodes, way) == PointerTo(nodes, p)
  {
    if p == ROOT_PAGE {
      way := [];
    } else {
      assert HangsNearer(nodes, spots, p);
      var s := spots[p];
      var above := EveryPageIsReached(nodes, spots, s.parent);
      way := above + [s.path[|s.path| - 1]];
      assert way[..|way| - 1] == above;
    }
  }

  /** And whatever can be reached is a page in use. */
  lemma {:induction false} ReachedIsInUse(nodes: Nodes, spots: Spots, way: seq<nat>)
    requires NoPageLost(nodes, spots)
    ensures WayEnd(nodes, way) != Empty ==> WayEnd(nodes, way).page in nodes
  {
    if way != [] {
      ReachedIsInUse(nodes, spots, way[..|way| - 1]);
    }
  }

  // ---- where a key is ----

  /** Entry `i` of the leaf in slot `b` of page `p` has the key. */
  predicate KeyAt(nodes: Nodes, key: seq<Byte>, p: nat, b: nat, i: nat) {
    && IsInner(nodes, p) && b < BRANCHING_FACTOR && nodes[p].children[b].Leaf? && IsLeaf(nodes, nodes[p].children[b].page)
    && var entries := nodes[nodes[p].children[b].page].entries;
       i < |entries| && entries[i].key == key
  }

  /** The key is alone in its leaf. */
  predicate AloneAt(nodes: Nodes, key: seq<Byte>, p: nat, b: nat) {
    KeyAt(nodes, key, p, b, 0) && |nodes[nodes[p].children[b].page].entries| == 1
  }

  /** The pointer leads to a leaf with these entries. */
  predicate HasLeaf(nodes: Nodes, slot: Pointer, entries: seq<Entry>) {
    slot.Leaf? && slot.page in nodes && nodes[slot.page] == LeafNode(entries)
  }

  /** Slot `gb` of page `g` leads to the internal node `p`. */
  predicate Hangs(nodes: Nodes, g: nat, gb: nat, p: nat) {
    IsInner(nodes, g) && gb < BRANCHING_FACTOR && nodes[g].children[gb] == Internal(p)
  }

  /** Searches for keys with the digits of a page go through it. */
  lemma {:induction false} SlotThrough(hash: HashFunction, nodes: Nodes, spots: Spots, p: nat, key: seq<Byte>)
    requires TrieOk(hash, nodes, spots) && IsInner(nodes, p) && p in spots && HasPrefix(hash(key), spots[p].path)
    decreases |spots[p].path|
    ensures SlotOf(hash, nodes, ROOT_PAGE, 0, key) == SlotOf(hash, nodes, p, |spots[p].path|, key)
  {
    hide Digit, LeafOk, HasPrefix, LinkOk, NodeOk;
    Parent(hash, nodes, spots, p);
    if p != ROOT_PAGE {
      SlotThroughParent(hash, nodes, spots, p, key);
      SlotThrough(hash, nodes, spots, spots[p].parent, key);
    }
  }

  lemma SlotThroughParent(hash: HashFunction, nodes: Nodes, spots: Spots, p: nat, key: seq<Byte>)
    requires IsInner(nodes, p) && p in spots && LinkOk(nodes, spots, p) && NodeOk(hash, nodes, spots, p)
    requires HasPrefix(hash(key), spots[p].path)
    ensures HasPrefix(hash(key), spots[spots[p].parent].path)
    ensures SlotOf(hash, nodes, spots[p].parent, |spots[p].path| - 1, key) == SlotOf(hash, nodes, p, |spots[p].path|, key)
  {
    hide Digit;
    var path := spots[p].path;
    assert path[|path| - 1] == Digit(hash(key), |path| - 1);
  }

  /** A key is in the leaf its digits lead to, and nowhere else. */
  lemma KeyIsInItsSlot(hash: HashFunction, nodes: Nodes, spots: Spots, key: seq<Byte>, p: nat, b: nat, i: nat)
    requires TrieOk(hash, nodes, spots) && nodes.Keys == spots.Keys && KeyAt(nodes, key, p, b, i)
    ensures SlotOf(hash, nodes, ROOT_PAGE, 0, key) == (p, b)
    ensures IndexOf(nodes[nodes[p].children[b].page].entries, key) == i
  {
    hide Digit, LinkOk, HasPrefix;
    var leaf := nodes[p].children[b].page;
    assert NodeOk(hash, nodes, spots, p) && ChildOk(nodes, spots, p, b) && NodeOk(hash, nodes, spots, leaf);
    assert HasPrefix(hash(key), spots[p].path + [b]);
    PrefixSnoc(hash(key), spots[p].path, b);
    SlotThrough(hash, nodes, spots, p, key);
  }

  lemma HangsOnce(hash: HashFunction, nodes: Nodes, spots: Spots, g: nat, gb: nat, g': nat, gb': nat, p: nat)
    requires TrieOk(hash, nodes, spots) && nodes.Keys == spots.Keys && Hangs(nodes, g, gb, p) && Hangs(nodes, g', gb', p)
    ensures g == g' && gb == gb'
  {
    hide TrieOk;
    HangsBelow(hash, nodes, spots, g, gb, p);
    HangsBelow(hash, nodes, spots, g', gb', p);
    assert (spots[g].path + [gb])[|spots[g].path|] == gb;
  }

  // ---- what a removal leaves ----

  ghost predicate NoOnlyChild(children: seq<Pointer>) {
    forall j: nat :: !OnlyChild(children, j)
  }

  /** What is left when the only entry of the leaf in slot `b` of page `p` is removed: the leaf is gone and its
      slot empty. A page below the root that has one child left then, a leaf or not, is gone too, and that
      child hangs in its place. All other pages are as they were. */
  ghost predicate LeafRemoved(nodes: Nodes, nodes': Nodes, p: nat, b: nat)
    requires IsInner(nodes, p) && b < BRANCHING_FACTOR && nodes[p].children[b].Leaf?
  {
    var leaf, left := nodes[p].children[b].page, nodes[p].children[b := Empty];
    && leaf !in nodes'
    && (p != ROOT_PAGE ==> forall g, gb: nat, j: nat {:trigger Hangs(nodes, g, gb, p), OnlyChild(left, j)} ::
          Hangs(nodes, g, gb, p) && OnlyChild(left, j) ==>
            && p !in nodes' && nodes' == nodes[g := Inner(nodes[g].children[gb := left[j]])] - {p, leaf})
    && (p == ROOT_PAGE || NoOnlyChild(left) ==>
          p in nodes' && nodes' == nodes[p := Inner(left)] - {leaf})
  }

  lemma LeafRemovedIs(hash: HashFunction, nodes: Nodes, spots: Spots, nodes1: Nodes, nodes': Nodes, p: nat, b: nat, g: nat, gb: nat,
                      j: nat)
    requires TrieOk(hash, nodes, spots) && nodes.Keys == spots.Keys
    requires IsInner(nodes, p) && b < BRANCHING_FACTOR && nodes[p].children[b].Leaf?
    requires nodes1 == nodes[p := Inner(nodes[p].children[b := Empty])] - {nodes[p].children[b].page}
    requires Hangs(nodes, g, gb, p) && OnlyChild(nodes[p].children[b := Empty], j)
    requires IsInner(nodes1, g) && nodes' == Collapsed(nodes1, g, gb, p, nodes[p].children[j])
    ensures LeafRemoved(nodes, nodes', p, b)
  {
    hide TrieOk;
    var leaf, left := nodes[p].children[b].page, nodes[p].children[b := Empty];
    HangsBelow(hash, nodes, spots, g, gb, p);
    ChildHangs(hash, nodes, spots, p, b);
    assert nodes' == nodes[g := Inner(nodes[g].children[gb := left[j]])] - {p, leaf};
    forall g', gb': nat, j': nat | Hangs(nodes, g', gb', p) && OnlyChild(left, j') ensures g' == g && gb' == gb && j' == j {
      HangsOnce(hash, nodes, spots, g, gb, g', gb', p);
    }
  }

  lemma LeafOnlyRemoved(nodes: Nodes, nodes': Nodes, p: nat, b: nat)
    requires IsInner(nodes, p) && b < BRANCHING_FACTOR && nodes[p].children[b].Leaf? && nodes[p].children[b].page != p
    requires nodes' == nodes[p := Inner(nodes[p].children[b := Empty])] - {nodes[p].children[b].page}
    requires p == ROOT_PAGE || NoOnlyChild(nodes[p].children[b := Empty])
    ensures LeafRemoved(nodes, nodes', p, b)
  {
  }

  /** Moving the only child of a page up, whatever its kind, loses no page. */
  lemma CollapseLosesNoPage(hash: HashFunction, nodes: Nodes, spots: Spots, g: nat, gb: nat, p: nat, j: nat)
    requires TrieOk(hash, nodes, spots) && nodes.Keys == spots.Keys
    requires Hangs(nodes, g, gb, p) && IsInner(nodes, p) && OnlyChild(nodes[p].children, j)
    ensures var child := nodes[p].children[j];
      NoPageLost(Collapsed(nodes, g, gb, p, child), (spots - {p})[child.page := Spot(spots[g].path + [gb], g)])
  {
    hide LeafOk, LinkOk, NodeOk, ChildOk, HangsNearer;
    var child := nodes[p].children[j];
    var nodes', spots' := Collapsed(nodes, g, gb, p, child), (spots - {p})[child.page := Spot(spots[g].path + [gb], g)];
    HangsBelow(hash, nodes, spots, g, gb, p);
    ChildHangs(hash, nodes, spots, p, j);
    forall q | q in nodes' && q != ROOT_PAGE ensures HangsNearer(nodes', spots', q) {
      if q == child.page {
        MovedUp(nodes, spots, g, gb, p, child);
      } else {
        StaysHanging(hash, nodes, spots, g, gb, p, j, q);
      }
    }
    forall q, i | IsInner(nodes', q) && 0 <= i < BRANCHING_FACTOR && nodes'[q].children[i] != Empty
      ensures nodes'[q].children[i].page in nodes' && nodes'[q].children[i] == PointerTo(nodes', nodes'[q].children[i].page)
    {
      if q != g || i != gb {
        ChildHangs(hash, nodes, spots, q, i);
        if nodes[q].children[i].page == p {
          HangsOnce(hash, nodes, spots, g, gb, q, i, p);
        }
      }
    }
  }

  lemma ChildHangs(hash: HashFunction, nodes: Nodes, spots: Spots, p: nat, b: nat)
    requires TrieOk(hash, nodes, spots) && nodes.Keys == spots.Keys && IsInner(nodes, p) && b < BRANCHING_FACTOR
    requires nodes[p].children[b] != Empty
    ensures var c := nodes[p].children[b];
      && c.page in nodes && c == PointerTo(nodes, c.page) && c.page != ROOT_PAGE && spots[c.page] == Spot(spots[p].path + [b], p)
      && c.page != p
  {
    hide LeafOk, LinkOk;
    assert NodeOk(hash, nodes, spots, p) && ChildOk(nodes, spots, p, b);
  }

  lemma MovedUp(nodes: Nodes, spots: Spots, g: nat, gb: nat, p: nat, child: Pointer)
    requires IsInner(nodes, g) && g in spots && gb < BRANCHING_FACTOR && g != p
    requires child != Empty && child.page in nodes && child == PointerTo(nodes, child.page) && child.page != p && child.page != g
    ensures var nodes', spots' := Collapsed(nodes, g, gb, p, child), (spots - {p})[child.page := Spot(spots[g].path + [gb], g)];
      child.page in nodes' && HangsNearer(nodes', spots', child.page)
  {
    var path := spots[g].path + [gb];
    assert path[|path| - 1] == gb;
  }

  lemma StaysHanging(hash: HashFunction, nodes: Nodes, spots: Spots, g: nat, gb: nat, p: nat, j: nat, q: nat)
    requires TrieOk(hash, nodes, spots) && nodes.Keys == spots.Keys && Hangs(nodes, g, gb, p) && IsInner(nodes, p)
    requires OnlyChild(nodes[p].children, j) && q in nodes && q != ROOT_PAGE && q != p && q != nodes[p].children[j].page
    ensures var child := nodes[p].children[j];
      var nodes', spots' := Collapsed(nodes, g, gb, p, child), (spots - {p})[child.page := Spot(spots[g].path + [gb], g)];
      q in nodes' && q in spots' && HangsNearer(nodes', spots', q)
  {
    hide TrieOk, NodesOk, NodeOk;
    Parent(hash, nodes, spots, q);
    HangsBelow(hash, nodes, spots, g, gb, p);
    ChildHangs(hash, nodes, spots, p, j);
    if spots[q].parent == p {
      OnlyChildSpots(hash, nodes, spots, p, j, q);
    }
  }

  // ---- what a rebuild leaves ----

  /** Building a subtree frees the leaf that was in the slot, and leaves every other page but the one with
      the slot as it was. */
  lemma BuiltPages(hash: HashFunction, nodes: Nodes, spots: Spots, nodes': Nodes, spots': Spots, p: nat, b: nat,
                   entries: seq<Entry>)
    requires Built(hash, nodes, spots, nodes', spots', p, b, entries) && !nodes[p].children[b].Internal?
    requires nodes.Keys == spots.Keys && nodes'.Keys == spots'.Keys
    ensures forall q :: q in LeafPages(nodes[p].children[b]) ==> q !in nodes'
    ensures forall q :: q in nodes && q != p && q !in LeafPages(nodes[p].children[b]) ==> q in nodes' && nodes'[q] == nodes[q]
    ensures IsInner(nodes', p) && nodes'[p] == Inner(nodes[p].children[b := nodes'[p].children[b]])
  {
    hide NodesOk, NewLinked, Finds;
    assert nodes'[p].children == nodes[p].children[b := nodes'[p].children[b]];
  }
}
