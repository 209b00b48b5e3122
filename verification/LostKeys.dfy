/** Inputs at which the map loses keys: a small value over a big one, a big value over a big one when a
    free list has no room, and a removal that moves an internal node up a level. */
module LostKeys {
  import opened Bytes
  import opened Ownership
  import opened SpaceManager
  import opened Pages
  import opened BufferPool
  import opened BigValue
  import opened LeafCodec
  import opened HashTrie
  import opened TrieEdits
  import D = DiskMap

  /** A map with one big value. */
  method OneBig(hash: HashFunction, key: seq<Byte>) returns (d: D.DiskMap)
    requires |key| == 1 && NulFree(key)
    ensures fresh(d) && d.Valid() && d.hash == hash && d.kvEntryCount == 1
    ensures d.contents.Keys == {key} && |d.contents[key]| == CAPACITY
  {
    hide Erases, TrieOk, Agrees;
    d := new D.DiskMap(hash);
    var ok := d.Write(key, Zeros(CAPACITY), {});
  }

  lemma Nothing(contents: map<seq<Byte>, seq<Byte>>, key: seq<Byte>)
    requires contents.Keys == {key}
    ensures contents - {key} == map[]
  {
  }

  /** A small value over a big one: the key is gone, and the count still has it. */
  method SmallOverBig(hash: HashFunction, key: seq<Byte>) returns (d: D.DiskMap)
    requires |key| == 1 && NulFree(key)
    ensures fresh(d) && d.Valid() && d.contents == map[] && d.kvEntryCount == 1
  {
    hide Erases, TrieOk, Agrees;
    d := OneBig(hash, key);
    Nothing(d.contents, key);
    var ok := d.Write(key, [], {});
  }

  /** A big value over a big one, when the list of single pages has no room: the same. */
  method BigOverBig(hash: HashFunction, key: seq<Byte>) returns (d: D.DiskMap)
    requires |key| == 1 && NulFree(key)
    ensures fresh(d) && d.Valid() && d.contents == map[] && d.kvEntryCount == 1
  {
    hide TrieOk, Agrees, PlaceOf, Erases;
    d := OneBig(hash, key);
    Nothing(d.contents, key);
    AlwaysErases(1 + 9 + CAPACITY);
    var ok := d.Write(key, Zeros(CAPACITY), {0});
  }

  lemma AlwaysErases(size: nat)
    ensures Erases(size, {0})
  {
    assert 0 in {0};
  }

  // ---- a free list without room ----

  lemma CountIsStack(store: Store, v: View)
    requires SpaceOk(store, v) && |v.chains| == ORDERS && |v.chains[0].pages| == 1
    ensures Count(store, 0) == |v.alloc.free[0]| && v.chains[0].at == 0 && |v.alloc.free| == ORDERS
  {
    hide Field, Partition;
    SpaceParts(store, v, 0);
  }

  /** A new file, from which single pages have been taken, as many as fit on a list page. */
  method TakePages() returns (t: Transaction, pages: seq<nat>, ghost v: View)
    ensures fresh(t) && SpaceOk(t.store, v) && |v.alloc.free| == |v.chains| == |v.alloc.lists| == ORDERS
    ensures v.alloc.free[0] == [] && v.alloc.next == FIRST_PAGE + FPL_PAGE_CAPACITY && v.chains[0].pages == [2]
    ensures |pages| == FPL_PAGE_CAPACITY
    ensures forall k :: 0 <= k < |pages| ==> pages[k] == FIRST_PAGE + k && Region(pages[k], 0) in v.alloc.live
  {
    hide SpaceOk, Field, FilePage, Count, HandsOut, Partition, Pow2;
    t := new Transaction(map[]);
    NothingWritten(t.store);
    InitMeta(t);
    v := InitialView();
    SpaceParts(t.store, v, 0);
    OnePage();
    pages := [];
    for i := 0 to FPL_PAGE_CAPACITY
      invariant SpaceOk(t.store, v) && |v.alloc.free| == |v.chains| == |v.alloc.lists| == ORDERS
      invariant v.alloc.free[0] == [] && v.alloc.next == FIRST_PAGE + i && v.chains[0].pages == [2]
      invariant |pages| == i
      invariant forall k :: 0 <= k < i ==> pages[k] == FIRST_PAGE + k && Region(pages[k], 0) in v.alloc.live
    {
      var page;
      page, v := Allocate(t, 0, v);
      pages := pages + [page];
    }
  }

  /** The same file after all the pages have been returned. */
  method FillList() returns (t: Transaction, ghost v: View)
    ensures fresh(t) && SpaceOk(t.store, v) && |v.chains| == ORDERS && ListIsFull(t.store, v, 0)
  {
    hide SpaceOk, Field, FilePage, Count, HandsOut, Partition, Freed, Pow2, FreshListPage, ListsBelow, OnlyListChanged;
    var pages;
    t, pages, v := TakePages();
    for i := 0 to FPL_PAGE_CAPACITY
      invariant SpaceOk(t.store, v) && |v.alloc.free| == |v.chains| == |v.alloc.lists| == ORDERS
      invariant |v.alloc.free[0]| == i && v.alloc.next == FIRST_PAGE + FPL_PAGE_CAPACITY && v.chains[0].pages == [2]
      invariant forall k :: i <= k < FPL_PAGE_CAPACITY ==> pages[k] == FIRST_PAGE + k && Region(pages[k], 0) in v.alloc.live
    {
      CountIsStack(t.store, v);
      ghost var v1, store1 := v, t.store;
      var ok;
      ok, v := FreeRegion(t, pages[i], 0, v);
      assert v.alloc == Push(v1.alloc, pages[i], 0) by { NotFull(store1, v1, pages[i]); }
    }
    CountIsStack(t.store, v);
  }

  lemma NothingWritten(store: Store)
    requires store == map[]
    ensures forall p: nat :: FilePage(store, p) == ZERO_PAGE
  {
  }

  lemma NotFull(store: Store, v: View, page: nat)
    requires |v.chains| == |v.alloc.free| == |v.alloc.lists| == ORDERS && Count(store, 0) < FPL_PAGE_CAPACITY
    ensures Freed(v.alloc, page, 0, ListIsFull(store, v, 0)) == Push(v.alloc, page, 0)
  {
    hide Count, Push;
  }

  // ---- a removal that loses another key ----

  /** Three keys: two share their first two digits, and part only with the third. */
  function ThreeHashes(key: seq<Byte>): Hash64 {
    if key == [1] then 1 * 512
    else if key == [2] then 2 * 512 + 3 * 512 * 512
    else if key == [3] then 2 * 512 + 4 * 512 * 512
    else 0
  }

  const THREE_NODES: Nodes := map[
    ROOT_PAGE := Inner(NO_CHILDREN[0 := Internal(2)]),
    2 := Inner(NO_CHILDREN[1 := Leaf(3)][2 := Internal(4)]),
    3 := LeafNode([Entry([1], [])]),
    4 := Inner(NO_CHILDREN[3 := Leaf(5)][4 := Leaf(6)]),
    5 := LeafNode([Entry([2], [])]),
    6 := LeafNode([Entry([3], [])])]

  const THREE_SPOTS: Spots := map[
    ROOT_PAGE := Spot([], 0),
    2 := Spot([0], ROOT_PAGE),
    3 := Spot([0, 1], 2),
    4 := Spot([0, 2], 2),
    5 := Spot([0, 2, 3], 4),
    6 := Spot([0, 2, 4], 4)]

  const THREE_KEYS: map<seq<Byte>, seq<Byte>> := map[[1] := [], [2] := [], [3] := []]

  lemma ThreeDigits(key: seq<Byte>)
    ensures var h := ThreeHashes(key);
      Digit(h, 0) == 0
      && Digit(h, 1) == (if key == [1] then 1 else if key == [2] || key == [3] then 2 else 0)
      && Digit(h, 2) == (if key == [2] then 3 else if key == [3] then 4 else 0)
  {
    var h := ThreeHashes(key);
    assert Digit(h, 1) == Digit(h / 512, 0);
    assert Digit(h, 2) == Digit(h / 512, 1) == Digit(h / 512 / 512, 0);
  }

  lemma OneEntryLeaf(key: seq<Byte>, path: seq<nat>)
    requires key in THREE_KEYS && HasPrefix(ThreeHashes(key), path)
    ensures LeafOk(ThreeHashes, [Entry(key, [])], path)
  {
    hide Digit;
  }

  lemma ThreeLeaves()
    ensures forall p :: p in THREE_SPOTS && THREE_NODES[p].LeafNode? ==>
              LeafOk(ThreeHashes, THREE_NODES[p].entries, THREE_SPOTS[p].path)
  {
    hide LeafOk, Digit;
    ThreeDigits([1]);
    ThreeDigits([2]);
    ThreeDigits([3]);
    OneEntryLeaf([1], [0, 1]);
    OneEntryLeaf([2], [0, 2, 3]);
    OneEntryLeaf([3], [0, 2, 4]);
  }

  lemma ThreeInner(p: nat)
    requires p in THREE_SPOTS && THREE_NODES[p].Inner?
    ensures NodeOk(ThreeHashes, THREE_NODES, THREE_SPOTS, p)
  {
    forall b | 0 <= b < BRANCHING_FACTOR ensures ChildOk(THREE_NODES, THREE_SPOTS, p, b) {
    }
  }

  lemma ThreeLinked(p: nat)
    requires p in THREE_SPOTS && p != ROOT_PAGE
    ensures LinkOk(THREE_NODES, THREE_SPOTS, p)
  {
  }

  lemma ThreeIsTrie()
    ensures TrieOk(ThreeHashes, THREE_NODES, THREE_SPOTS)
  {
    hide LeafOk, ChildOk, LinkOk;
    ThreeLeaves();
    forall p | p in THREE_SPOTS ensures NodeOk(ThreeHashes, THREE_NODES, THREE_SPOTS, p) {
      if THREE_NODES[p].Inner? {
        ThreeInner(p);
      }
    }
    forall p | p in THREE_SPOTS && p != ROOT_PAGE ensures LinkOk(THREE_NODES, THREE_SPOTS, p) {
      ThreeLinked(p);
    }
  }

  lemma ThreeAgrees()
    ensures Agrees(ThreeHashes, THREE_NODES, THREE_KEYS)
  {
    hide Digit;
    forall key ensures Get(ThreeHashes, THREE_NODES, key) == Stored(THREE_KEYS, key) {
      ThreeGet(key);
    }
  }

  lemma ThreeGet(key: seq<Byte>)
    ensures Get(ThreeHashes, THREE_NODES, key) == Stored(THREE_KEYS, key)
  {
    hide Digit;
    ThreeDigits(key);
    assert LookupAt(ThreeHashes, THREE_NODES, Internal(ROOT_PAGE), 0, key)
        == LookupAt(ThreeHashes, THREE_NODES, Internal(2), 1, key);
    if key == [2] || key == [3] {
      assert LookupAt(ThreeHashes, THREE_NODES, Internal(2), 1, key)
          == LookupAt(ThreeHashes, THREE_NODES, Internal(4), 2, key);
    }
  }

  /** Removing the first key of a proper trie loses the second. */
  lemma RemovalLosesOthers()
    ensures TrieOk(ThreeHashes, THREE_NODES, THREE_SPOTS) && Agrees(ThreeHashes, THREE_NODES, THREE_KEYS)
    ensures OthersLost(ThreeHashes, THREE_NODES, THREE_SPOTS, THREE_KEYS, [1])
  {
    hide TrieOk, Agrees, CollapsesAt, GoesAstray;
    ThreeIsTrie();
    ThreeAgrees();
    FirstCollapses();
    SecondGoesAstray();
  }

  lemma FirstCollapses()
    ensures CollapsesAt(ThreeHashes, THREE_NODES, THREE_SPOTS, [1], 2)
  {
    hide Digit;
    ThreeDigits([1]);
    assert SlotOf(ThreeHashes, THREE_NODES, ROOT_PAGE, 0, [1]) == SlotOf(ThreeHashes, THREE_NODES, 2, 1, [1]) == (2, 1);
    assert OnlyChild(THREE_NODES[2].children[1 := Empty], 2);
  }

  lemma SecondGoesAstray()
    requires CollapsesAt(ThreeHashes, THREE_NODES, THREE_SPOTS, [1], 2)
    ensures GoesAstray(ThreeHashes, THREE_NODES, THREE_SPOTS, THREE_KEYS, [1], 2, [2])
  {
    hide Digit, CollapsesAt;
    ThreeDigits([1]);
    ThreeDigits([2]);
    assert SlotOf(ThreeHashes, THREE_NODES, ROOT_PAGE, 0, [1]) == SlotOf(ThreeHashes, THREE_NODES, 2, 1, [1]) == (2, 1);
    assert EndDepth(ThreeHashes, THREE_NODES, Internal(4), 2, [2]) == EndDepth(ThreeHashes, THREE_NODES, Leaf(5), 3, [2]) == 3;
  }
}
