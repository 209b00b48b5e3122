/** The key/value map itself: reading, writing and removing entries, and building subtrees. */
module DiskMap {
  import opened Bytes
  import opened Basics
  import opened BigValue
  import opened LeafCodec
  import opened HashTrie
  import opened TrieEdits
  import opened TriePages

  class DiskMap {
    const hash: HashFunction
    var nodes: Nodes
    var kvEntryCount: int
    ghost var spots: Spots
    ghost var contents: map<seq<Byte>, seq<Byte>>

    /** The pages form a trie, there are no others, and looking a key up in it gives what was stored. */
    ghost predicate Valid()
      reads this
    {
      TrieOk(hash, nodes, spots) && nodes.Keys == spots.Keys && Agrees(hash, nodes, contents)
    }

    constructor (hash: HashFunction)
      ensures Valid() && contents == map[] && kvEntryCount == 0 && this.hash == hash
    {
      this.hash := hash;
      nodes, kvEntryCount := map[ROOT_PAGE := Inner(NO_CHILDREN)], 0;
      spots, contents := map[ROOT_PAGE := Spot([], 0)], map[];
    }

    /** A page that is not in use, whichever one the space manager hands out. */
    method AllocatePage() returns (page: nat)
      ensures page > ROOT_PAGE && page !in nodes
    {
      assert exists p: nat :: p > ROOT_PAGE && p !in nodes.Keys by {
        var p := Unused(nodes.Keys);
        assert p !in nodes.Keys;
      }
      page :| page > ROOT_PAGE && page !in nodes.Keys;
    }

    method TotalEntriesSize(entries: seq<Entry>) returns (size: nat)
      ensures size == |EncodeAll(entries)|
    {
      hide Encode, EncodeAll;
      size := 0;
      OffsetEnds(entries);
      for i := 0 to |entries|
        invariant size == Offset(entries, i)
      {
        EncodeSplit(entries, i);
        EncodeParts(entries[i]);
        size := size + |entries[i].key| + 9 + |entries[i].value|;
      }
    }

    method SplitByDigit(entries: seq<Entry>, d: nat) returns (buckets: seq<seq<Entry>>)
      ensures |buckets| == BRANCHING_FACTOR && forall b :: 0 <= b < BRANCHING_FACTOR ==> buckets[b] == WithDigit(hash, entries, d, b)
    {
      hide Digit;
      buckets := seq(BRANCHING_FACTOR, _ => []);
      for i := 0 to |entries|
        invariant |buckets| == BRANCHING_FACTOR
        invariant forall b :: 0 <= b < BRANCHING_FACTOR ==> buckets[b] == WithDigit(hash, entries[..i], d, b)
      {
        var bucket := BucketOfHash(hash(entries[i].key), d);
        assert entries[..i + 1][..i] == entries[..i];
        buckets := buckets[bucket := buckets[bucket] + [entries[i]]];
      }
      assert entries[..|entries|] == entries;
    }

    /** Writes a slot of an internal node. A leaf that was in it is no longer part of the trie, but its
        page stays as it is. */
    method WriteSlot(p: nat, b: nat, ptr: Pointer)
      requires NodesOk(hash, nodes, spots) && IsInner(nodes, p) && p in spots
      requires b < BRANCHING_FACTOR && !nodes[p].children[b].Internal?
      requires ptr == Empty || (ptr.page in spots - LeafPages(nodes[p].children[b]) && ptr.page != p
                                && ptr == PointerTo(nodes, ptr.page) && spots[ptr.page] == Spot(spots[p].path + [b], p))
      modifies this`nodes, this`spots
      ensures SlotSet(old(nodes), old(spots), nodes, spots, p, b, ptr)
      ensures nodes == old(nodes)[p := Inner(old(nodes)[p].children[b := ptr])]
      ensures nodes.Keys - spots.Keys == old(nodes.Keys - spots.Keys) + LeafPages(old(nodes)[p].children[b])
    {
      assert NodeOk(hash, nodes, spots, p) && ChildOk(nodes, spots, p, b);
      var child := nodes[p].children[b];
      nodes := nodes[p := Inner(nodes[p].children[b := ptr])];
      spots := spots - LeafPages(child);
    }

    /** Frees the leaf in a slot, if there is one, and writes the slot. */
    method ReplaceSlot(p: nat, b: nat, ptr: Pointer)
      requires NodesOk(hash, nodes, spots) && IsInner(nodes, p) && p in spots
      requires b < BRANCHING_FACTOR && !nodes[p].children[b].Internal?
      requires ptr == Empty || (ptr.page in spots - LeafPages(nodes[p].children[b]) && ptr.page != p
                                && ptr == PointerTo(nodes, ptr.page) && spots[ptr.page] == Spot(spots[p].path + [b], p))
      modifies this`nodes, this`spots
      ensures SlotSet(old(nodes), old(spots), nodes, spots, p, b, ptr)
      ensures nodes == old(nodes)[p := Inner(old(nodes)[p].children[b := ptr])] - LeafPages(old(nodes)[p].children[b])
      ensures old(nodes.Keys == spots.Keys) ==> nodes.Keys == spots.Keys
    {
      ChildIsOld(hash, nodes, spots, p, b);
      ghost var gone := LeafPages(nodes[p].children[b]);
      var child := nodes[p].children[b];
      if child != Empty {
        nodes := nodes - {child.page};
      }
      nodes := nodes[p := Inner(nodes[p].children[b := ptr])];
      spots := spots - gone;
    }

    /** Puts a subtree with the entries into a slot that holds nothing or a leaf, which is freed: one
        leaf if they fit or there is only one, else an internal node with a subtree for every digit. */
    method CreateSubtree(parent: nat, parentEntry: nat, parentDepth: nat, entries: seq<Entry>)
      requires NodesOk(hash, nodes, spots) && IsInner(nodes, parent) && parent in spots && parentEntry < BRANCHING_FACTOR
      requires parentDepth == |spots[parent].path| < DIGITS && !nodes[parent].children[parentEntry].Internal?
      requires Buildable(hash, entries, spots[parent].path + [parentEntry]) && nodes.Keys == spots.Keys
      modifies this`nodes, this`spots
      decreases DIGITS - parentDepth
      ensures Built(hash, old(nodes), old(spots), nodes, spots, parent, parentEntry, entries)
      ensures nodes.Keys == spots.Keys
      ensures IsInner(nodes, parent)
      ensures nodes[parent] == Inner(old(nodes)[parent].children[parentEntry := nodes[parent].children[parentEntry]])
      ensures var slot := nodes[parent].children[parentEntry];
        if |EncodeAll(entries)| <= CAPACITY || |entries| == 1 then
          HasLeaf(nodes, slot, entries)
        else
          slot.Internal?
      ensures forall q :: q in LeafPages(old(nodes)[parent].children[parentEntry]) ==> q !in nodes
      ensures forall q :: q in old(nodes) && q != parent && q !in LeafPages(old(nodes)[parent].children[parentEntry]) ==>
                q in nodes && nodes[q] == old(nodes)[q]
    {
      hide NodesOk, Buildable, Built, Filling, SlotFilled, Finds, Digit, WithDigit, EncodeAll, LeafOk;
      ghost var path := spots[parent].path + [parentEntry];
      var totalEntriesSize := TotalEntriesSize(entries);
      if totalEntriesSize <= CAPACITY || |entries| == 1 {
        BuildableLeaf(hash, entries, path);
        var page := AllocatePage();
        ghost var spot := Spot(path, parent);
        LoosePageOk(hash, nodes, spots, page, LeafNode(entries), spot);
        ChildIsOld(hash, nodes, spots, parent, parentEntry);
        nodes, spots := nodes[page := LeafNode(entries)], spots[page := spot];
        ReplaceSlot(parent, parentEntry, Leaf(page));
        LeafBuilt(hash, old(nodes), old(spots), page, entries, nodes, spots, parent, parentEntry);
        BuiltPages(hash, old(nodes), old(spots), nodes, spots, parent, parentEntry, entries);
      } else {
        SeveralEntries(hash, entries, path);
        var buckets := SplitByDigit(entries, parentDepth + 1);
        var page := AllocatePage();
        ghost var spot := Spot(path, parent);
        FillingStarts(hash, nodes, spots, page, spot, entries);
        nodes, spots := nodes[page := Inner(NO_CHILDREN)], spots[page := spot];
        for i := 0 to BRANCHING_FACTOR
          invariant Filling(hash, old(nodes), old(spots), nodes, spots, page, spot, entries, i) && nodes.Keys == spots.Keys
        {
          FillingParts(hash, old(nodes), old(spots), nodes, spots, page, spot, entries, i);
          if buckets[i] != [] {
            BucketBuildable(hash, entries, path, i);
            ghost var nodes1, spots1 := nodes, spots;
            CreateSubtree(page, i, parentDepth + 1, buckets[i]);
            FillingAdvances(hash, old(nodes), old(spots), nodes1, spots1, page, spot, entries, i, nodes, spots);
          } else {
            FillingSkips(hash, old(nodes), old(spots), nodes, spots, page, spot, entries, i);
          }
        }
        ghost var nodes1, spots1 := nodes, spots;
        FillingParent(hash, old(nodes), old(spots), nodes, spots, page, spot, entries, parent);
        ReplaceSlot(parent, parentEntry, Internal(page));
        BuildableDistinct(hash, entries, path);
        InnerBuilt(hash, old(nodes), old(spots), nodes1, spots1, page, entries, nodes, spots, parent, parentEntry);
        BuiltPages(hash, old(nodes), old(spots), nodes, spots, parent, parentEntry, entries);
      }
    }

    /** Follows the digits of the hash of a key to the slot that is empty or points to a leaf. */
    method FindParent(key: seq<Byte>) returns (parent: nat, parentEntry: nat, parentDepth: nat)
      requires TrieOk(hash, nodes, spots)
      ensures IsInner(nodes, parent) && parent in spots && parentDepth == |spots[parent].path| < DIGITS
      ensures parentEntry < BRANCHING_FACTOR && HasPrefix(hash(key), spots[parent].path + [parentEntry])
      ensures !nodes[parent].children[parentEntry].Internal?
    {
      hide Digit, LeafOk, LinkOk;
      parent, parentDepth := ROOT_PAGE, 0;
      while true
        invariant IsInner(nodes, parent) && parent in spots && parentDepth == |spots[parent].path|
        invariant HasPrefix(hash(key), spots[parent].path)
        decreases DIGITS - parentDepth
      {
        InnerIsShallow(hash, nodes, spots, parent);
        parentEntry := GetBucket(hash, key, parentDepth + 1);
        PrefixSnoc(hash(key), spots[parent].path, parentEntry);
        var value := nodes[parent].children[parentEntry];
        assert NodeOk(hash, nodes, spots, parent) && ChildOk(nodes, spots, parent, parentEntry);
        if !value.Internal? {
          break;
        }
        assert NodeOk(hash, nodes, spots, value.page);
        parent, parentDepth := value.page, parentDepth + 1;
      }
    }

    /** Reads a value. An empty slot stands for an absent key. */
    method Read(key: seq<Byte>) returns (found: bool, value: seq<Byte>)
      requires Valid()
      ensures found <==> key in contents
      ensures found ==> value == contents[key]
    {
      hide LookupAt, NodesOk, HasPrefix, LeafOk, Get, TrieOk, Agrees;
      var parent, parentEntry, _ := FindParent(key);
      SlotContents(hash, nodes, spots, parent, parentEntry, contents);
      var slot := nodes[parent].children[parentEntry];
      found, value := false, [];
      if slot.Leaf? {
        var entries := nodes[slot.page].entries;
        var i := IndexOf(entries, key);
        if i >= 0 {
          found, value := true, entries[i].value;
        }
      }
    }

    /** The slot for a new key, as FindParent leaves it. */
    ghost predicate SlotFor(key: seq<Byte>, parent: nat, parentEntry: nat, parentDepth: nat)
      reads this
    {
      && IsInner(nodes, parent) && parent in spots && parentDepth == |spots[parent].path| < DIGITS
      && parentEntry < BRANCHING_FACTOR && HasPrefix(hash(key), spots[parent].path + [parentEntry])
      && !nodes[parent].children[parentEntry].Internal?
    }

    /** The first entry of an empty slot. */
    method AddFirst(parent: nat, parentEntry: nat, parentDepth: nat, key: seq<Byte>, buffer: seq<Byte>)
      requires Valid() && SlotFor(key, parent, parentEntry, parentDepth) && GoodEntry(Entry(key, buffer))
      requires nodes[parent].children[parentEntry] == Empty
      modifies this`nodes, this`spots, this`contents
      ensures Valid() && contents == old(contents)[key := buffer]
      ensures IsInner(nodes, parent) && HasLeaf(nodes, nodes[parent].children[parentEntry], [Entry(key, buffer)])
      ensures forall q :: q in old(nodes) && q != parent ==> q in nodes && nodes[q] == old(nodes)[q]
    {
      hide NodesOk, Built, Digit, HasPrefix, Get, TrieOk, Agrees, Find, Buildable, GoodEntry, Stored;
      ghost var path, e := spots[parent].path + [parentEntry], Entry(key, buffer);
      SlotParts(hash, nodes, spots, parent, parentEntry, contents);
      OneBuildable(hash, e, path);
      CreateSubtree(parent, parentEntry, parentDepth, [Entry(key, buffer)]);
      contents := contents[key := buffer];
      forall k ensures Stored(contents, k) == if HasPrefix(hash(k), path) then Find([e], k) else Stored(old(contents), k) {
        FirstContents(hash, e, path, old(contents), k);
      }
      BuiltAgrees(hash, old(nodes), old(spots), nodes, spots, parent, parentEntry, [e], old(contents), contents);
    }

    /** A new internal node without children takes the place of what was in a slot. */
    method AddInner(p: nat, b: nat, ghost before: map<seq<Byte>, seq<Byte>>, ghost rest: map<seq<Byte>,
                    seq<Byte>>) returns (page: nat)
      requires TrieOk(hash, nodes, spots) && Agrees(hash, nodes, before) && IsInner(nodes, p) && p in spots
      requires b < BRANCHING_FACTOR && !nodes[p].children[b].Internal? && |spots[p].path| + 1 < DIGITS
      requires EmptySlot(hash, spots[p].path + [b], rest)
      requires forall key :: !HasPrefix(hash(key), spots[p].path + [b]) ==> Stored(rest, key) == Stored(before, key)
      modifies this`nodes, this`spots
      ensures TrieOk(hash, nodes, spots) && Agrees(hash, nodes, rest)
      ensures page !in old(nodes) && IsInner(nodes, page) && page in spots && spots[page] == Spot(old(spots)[p].path + [b], p)
      ensures forall i :: 0 <= i < BRANCHING_FACTOR ==> nodes[page].children[i] == Empty
      ensures forall q :: q in old(nodes) && q != p ==> q in nodes && nodes[q] == old(nodes)[q]
      ensures forall q :: q in LeafPages(old(nodes)[p].children[b]) ==> q !in spots
      ensures forall q :: q in spots && q !in old(spots) ==> q == page
      ensures nodes.Keys - spots.Keys == old(nodes.Keys - spots.Keys) + LeafPages(old(nodes)[p].children[b])
    {
      hide NodesOk, Built, Digit, HasPrefix, Get, Agrees, Find, Stored, LeafOk, LinkOk, NodeOk;
      page := AllocatePage();
      ChildIsOld(hash, nodes, spots, p, b);
      ghost var spot := Spot(spots[p].path + [b], p);
      FillingStarts(hash, nodes, spots, page, spot, []);
      FillingParts(hash, nodes, spots, nodes[page := Inner(NO_CHILDREN)], spots[page := spot], page, spot, [], 0);
      SpotsHaveNodes(hash, nodes, spots);
      nodes, spots := nodes[page := Inner(NO_CHILDREN)], spots[page := spot];
      WriteSlot(p, b, Internal(page));
      EmptyInnerBuilt(hash, old(nodes), old(spots), page, nodes, spots, p, b);
      NothingFound();
      BuiltAgrees(hash, old(nodes), old(spots), nodes, spots, p, b, [], before, rest);
    }

    /** Links a leaf with one entry, that no slot points to, into an empty slot. */
    method LinkLeaf(p: nat, b: nat, leaf: nat, ghost e: Entry, ghost rest: map<seq<Byte>, seq<Byte>>)
      requires TrieOk(hash, nodes, spots) && Agrees(hash, nodes, rest) && IsInner(nodes, p) && p in spots
      requires b < BRANCHING_FACTOR && nodes[p].children[b] == Empty
      requires leaf in nodes && nodes[leaf] == LeafNode([e]) && leaf !in spots && LeafOk(hash, [e], spots[p].path + [b])
      requires HasPrefix(hash(e.key), spots[p].path + [b]) && contents == rest[e.key := e.value]
      requires nodes.Keys - spots.Keys == {leaf}
      modifies this`nodes, this`spots
      ensures Valid() && IsInner(nodes, p) && p in spots && spots[p] == old(spots)[p]
      ensures nodes[p] == Inner(old(nodes)[p].children[b := Leaf(leaf)])
      ensures leaf in nodes && nodes[leaf] == old(nodes)[leaf]
    {
      hide NodesOk, Built, Digit, HasPrefix, Get, Agrees, Find, Stored, LeafOk, LinkOk, NodeOk;
      ghost var path := spots[p].path + [b];
      SlotParts(hash, nodes, spots, p, b, rest);
      LooseLeaf(hash, nodes, spots, leaf, e, Spot(path, p));
      assert nodes[leaf := LeafNode([e])] == nodes;
      spots := spots[leaf := Spot(path, p)];
      assert spots.Keys == old(spots).Keys + {leaf};
      assert nodes.Keys - spots.Keys == (nodes.Keys - old(spots).Keys) - {leaf} == {};
      WriteSlot(p, b, Leaf(leaf));
      LeafBuilt(hash, old(nodes), old(spots), leaf, [e], nodes, spots, p, b);
      forall k ensures Stored(contents, k) == if HasPrefix(hash(k), path) then Find([e], k) else Stored(rest, k) {
        OneContents(hash, e, path, rest, contents, k);
      }
      BuiltAgrees(hash, old(nodes), old(spots), nodes, spots, p, b, [e], rest, contents);
      SpotsHaveNodes(hash, nodes, spots);
      assert nodes.Keys - spots.Keys == {};
    }

    /** Splits a leaf with one entry: internal nodes are added until the two keys go different ways. */
    method SplitLeaf(parent: nat, parentEntry: nat, parentDepth: nat, key: seq<Byte>, buffer: seq<Byte>, leaf: nat)
      requires Valid() && SlotFor(key, parent, parentEntry, parentDepth) && GoodEntry(Entry(key, buffer))
      requires nodes[parent].children[parentEntry] == Leaf(leaf) && IsLeaf(nodes, leaf) && |nodes[leaf].entries| == 1
      requires key !in contents && Separate(hash, contents.Keys + {key})
      modifies this`nodes, this`spots, this`contents
      ensures Valid() && contents == old(contents)[key := buffer]
      ensures leaf in nodes && nodes[leaf] == old(nodes)[leaf]
    {
      hide NodesOk, LeafOk, Digit, HasPrefix, Get, TrieOk, Agrees, Find, GoodEntry, Stored;
      ghost var path0 := spots[parent].path + [parentEntry];
      SlotParts(hash, nodes, spots, parent, parentEntry, contents);
      ghost var e := nodes[leaf].entries[0];
      assert nodes[leaf].entries == [e];
      OneKeyOut(hash, e, path0, contents);
      var existingKey := nodes[leaf].entries[0].key;
      assert existingKey in contents.Keys + {key} && key in contents.Keys + {key};
      ghost var rest := contents - {existingKey};
      MapWithout(contents, existingKey);
      var node, depth := parent, parentDepth;
      ghost var unlinked := false;
      PrefixSnoc(hash(key), spots[parent].path, parentEntry);
      PrefixSnoc(hash(existingKey), spots[parent].path, parentEntry);
      while true
        invariant TrieOk(hash, nodes, spots) && IsInner(nodes, node) && node in spots && depth == |spots[node].path| < DIGITS
        invariant HasPrefix(hash(key), spots[node].path) && HasPrefix(hash(existingKey), spots[node].path)
        invariant leaf in nodes && nodes[leaf] == LeafNode([e]) && contents == old(contents)
        invariant !unlinked ==> nodes == old(nodes) && spots == old(spots) && node == parent
        invariant unlinked ==> leaf !in spots && Agrees(hash, nodes, rest)
        invariant nodes.Keys - spots.Keys == if unlinked then {leaf} else {}
        invariant unlinked ==> forall b :: 0 <= b < BRANCHING_FACTOR ==> nodes[node].children[b] == Empty
        decreases DIGITS - depth
      {
        var newBucket := GetBucket(hash, key, depth + 1);
        var existingKeyBucket := GetBucket(hash, existingKey, depth + 1);
        PrefixSnoc(hash(key), spots[node].path, newBucket);
        PrefixSnoc(hash(existingKey), spots[node].path, existingKeyBucket);
        if newBucket == existingKeyBucket {
          DistinctHashesPart(hash(key), hash(existingKey), spots[node].path + [newBucket]);
          ghost var before := if unlinked then rest else contents;
          SlotParts(hash, nodes, spots, node, newBucket, before);
          var page := AddInner(node, newBucket, before, rest);
          node, depth, unlinked := page, depth + 1, true;
        } else {
          SlotParts(hash, nodes, spots, node, existingKeyBucket, rest);
          OneLeafOk(hash, e, path0, spots[node].path + [existingKeyBucket]);
          LinkLeaf(node, existingKeyBucket, leaf, e, rest);
          AddFirst(node, newBucket, depth, key, buffer);
          return;
        }
      }
    }

    /** Rebuilds the subtree of a slot from the entries of its leaf and one more. */
    method AddByRebuild(parent: nat, parentEntry: nat, parentDepth: nat, key: seq<Byte>, buffer: seq<Byte>,
                        entries: seq<Entry>)
      requires Valid() && SlotFor(key, parent, parentEntry, parentDepth) && GoodEntry(Entry(key, buffer))
      requires SlotHolds(hash, entries, spots[parent].path + [parentEntry], contents)
      requires key !in contents && Separate(hash, contents.Keys + {key})
      modifies this`nodes, this`spots, this`contents
      ensures Valid() && contents == old(contents)[key := buffer]
      ensures forall q :: q in LeafPages(old(nodes)[parent].children[parentEntry]) ==> q !in nodes
    {
      hide NodesOk, Built, Digit, HasPrefix, Get, TrieOk, Agrees, Find, Buildable, GoodEntry, Stored, SlotHolds, Separate;
      ghost var path, e := spots[parent].path + [parentEntry], Entry(key, buffer);
      SlotParts(hash, nodes, spots, parent, parentEntry, contents);
      AppendedBuildable(hash, entries, e, path, contents);
      CreateSubtree(parent, parentEntry, parentDepth, entries + [Entry(key, buffer)]);
      contents := contents[key := buffer];
      forall k ensures Stored(contents, k) == if HasPrefix(hash(k), path) then Find(entries + [e], k) else Stored(old(contents), k) {
        AppendedContents(hash, entries, e, path, old(contents), k);
      }
      BuiltAgrees(hash, old(nodes), old(spots), nodes, spots, parent, parentEntry, entries + [e], old(contents), contents);
    }

    /** Adds a key to a slot that holds a leaf without it: appended when it fits, else the leaf is split
        or the subtree rebuilt. */
    method AddToLeaf(parent: nat, parentEntry: nat, parentDepth: nat, key: seq<Byte>, buffer: seq<Byte>, leaf: nat)
      requires Valid() && SlotFor(key, parent, parentEntry, parentDepth) && GoodEntry(Entry(key, buffer))
      requires nodes[parent].children[parentEntry] == Leaf(leaf) && IsLeaf(nodes, leaf)
      requires key !in contents && Separate(hash, contents.Keys + {key})
      modifies this`nodes, this`spots, this`contents
      ensures Valid() && contents == old(contents)[key := buffer]
      ensures var entries := old(nodes[leaf].entries);
        if |EncodeAll(entries)| + |key| + 9 + |buffer| <= CAPACITY then
          nodes == old(nodes)[leaf := LeafNode(entries + [Entry(key, buffer)])]
        else if |entries| == 1 then
          leaf in nodes && nodes[leaf] == old(nodes)[leaf]
        else
          leaf !in nodes
    {
      hide NodesOk, Digit, HasPrefix, Get, TrieOk, Agrees, Find, Buildable, GoodEntry, Stored, SlotHolds, Separate, EncodeAll, LeafOk;
      ghost var path, e := spots[parent].path + [parentEntry], Entry(key, buffer);
      SlotParts(hash, nodes, spots, parent, parentEntry, contents);
      var entries := nodes[leaf].entries;
      var usage := TotalEntriesSize(entries);
      if usage + |key| + 9 + |buffer| <= CAPACITY {
        AppendedBuildable(hash, entries, e, path, contents);
        AppendedFits(hash, entries, e, path);
        nodes := nodes[leaf := LeafNode(entries + [Entry(key, buffer)])];
        contents := contents[key := buffer];
        forall k ensures Stored(contents, k) == if HasPrefix(hash(k), path) then Find(entries + [e], k) else Stored(old(contents), k) {
          AppendedContents(hash, entries, e, path, old(contents), k);
        }
        LeafEdited(hash, old(nodes), spots, parent, parentEntry, leaf, entries + [e], old(contents), contents);
      } else if |entries| == 1 {
        SplitLeaf(parent, parentEntry, parentDepth, key, buffer, leaf);
      } else {
        AddByRebuild(parent, parentEntry, parentDepth, key, buffer, entries);
      }
    }

    /** Replaces a value in a leaf on one page: in place when the result fits, else by a rebuild. */
    method UpdateEntry(parent: nat, parentEntry: nat, parentDepth: nat, key: seq<Byte>, buffer: seq<Byte>, leaf: nat,
                       i: nat)
      requires Valid() && SlotFor(key, parent, parentEntry, parentDepth) && |buffer| < U64_LIMIT
      requires nodes[parent].children[parentEntry] == Leaf(leaf) && IsLeaf(nodes, leaf)
      requires i < |nodes[leaf].entries| && nodes[leaf].entries[i].key == key && |EncodeAll(nodes[leaf].entries)| <= CAPACITY
      requires |buffer| >= |nodes[leaf].entries[i].value| && Separate(hash, contents.Keys)
      modifies this`nodes, this`spots, this`contents
      ensures Valid() && contents == old(contents)[key := buffer]
      ensures var entries := old(nodes[leaf].entries);
        if |EncodeAll(entries)| + |buffer| - |entries[i].value| <= CAPACITY then
          nodes == old(nodes)[leaf := LeafNode(entries[i := Entry(key, buffer)])]
        else
          leaf !in nodes
    {
      hide NodesOk, Built, Digit, HasPrefix, Get, TrieOk, Agrees, Find, Buildable, GoodEntry, Stored, SlotHolds, Separate, EncodeAll, LeafOk;
      ghost var path := spots[parent].path + [parentEntry];
      SlotParts(hash, nodes, spots, parent, parentEntry, contents);
      var entries := nodes[leaf].entries;
      var entries' := entries[i := Entry(key, buffer)];
      UpdatedBuildable(hash, entries, i, buffer, path, contents);
      UpdatedSize(entries, i, buffer);
      contents := contents[key := buffer];
      forall k ensures Stored(contents, k) == if HasPrefix(hash(k), path) then Find(entries', k) else Stored(old(contents), k) {
        UpdatedContents(hash, entries, i, buffer, path, old(contents), k);
      }
      var usage := TotalEntriesSize(entries);
      if usage + |buffer| - |entries[i].value| > CAPACITY {
        CreateSubtree(parent, parentEntry, parentDepth, entries');
        BuiltAgrees(hash, old(nodes), old(spots), nodes, spots, parent, parentEntry, entries', old(contents), contents);
      } else {
        BuildableLeaf(hash, entries', path);
        nodes := nodes[leaf := LeafNode(entries')];
        LeafEdited(hash, old(nodes), spots, parent, parentEntry, leaf, entries', old(contents), contents);
      }
    }

    /** Overwrites a value that goes on in further regions: its chain is freed and unlinked first, and what
        the first page holds then decides. A page that still holds its entry gets a new leaf for a value
        that is again too big, while a smaller one is written to the page that was freed. A page that the
        frees have cleared reads as no entries, so that either way the key is lost. */
    method OverwriteBig(parent: nat, parentEntry: nat, parentDepth: nat, key: seq<Byte>, buffer: seq<Byte>, leaf: nat,
                        fullLists: set<nat>)
      requires Valid() && SlotFor(key, parent, parentEntry, parentDepth) && GoodEntry(Entry(key, buffer))
      requires nodes[parent].children[parentEntry] == Leaf(leaf) && IsLeaf(nodes, leaf)
      requires |nodes[leaf].entries| == 1 && nodes[leaf].entries[0].key == key
      modifies this`nodes, this`spots, this`contents
      ensures Valid()
      ensures var erased := Erases(|Encode(old(nodes[leaf].entries[0]))|, fullLists);
        contents == if |key| + 9 + |buffer| > CAPACITY && !erased then old(contents)[key := buffer] else old(contents) - {key}
      ensures IsInner(nodes, parent)
      ensures var erased, slot := Erases(|Encode(old(nodes[leaf].entries[0]))|, fullLists), nodes[parent].children[parentEntry];
        if erased && |buffer| > CAPACITY then HasLeaf(nodes, slot, [])
        else if !erased && |key| + 9 + |buffer| > CAPACITY then HasLeaf(nodes, slot, [Entry(key, buffer)])
        else slot == Empty
    {
      hide NodesOk, Built, Digit, HasPrefix, Get, TrieOk, Agrees, Find, Buildable, GoodEntry, Stored, LeafOk, SlotSet, Erases;
      ghost var path := spots[parent].path + [parentEntry];
      SlotParts(hash, nodes, spots, parent, parentEntry, contents);
      var e := nodes[leaf].entries[0];
      assert nodes[leaf].entries == [e];
      OneKeyOut(hash, e, path, contents);
      ReplaceSlot(parent, parentEntry, Empty);
      EmptiedBuilt(hash, old(nodes), old(spots), nodes, spots, parent, parentEntry);
      contents := contents - {key};
      NothingFound();
      BuiltAgrees(hash, old(nodes), old(spots), nodes, spots, parent, parentEntry, [], old(contents), contents);
      SlotSetParts(old(nodes), old(spots), nodes, spots, parent, parentEntry, Empty);
      EncodeParts(e);
      if Erases(|Encode(e)|, fullLists) {
        if |buffer| > CAPACITY {
          RebuildEmpty(parent, parentEntry, parentDepth);
        }
      } else if |Encode(e)| + |buffer| - |e.value| > CAPACITY {
        AddFirst(parent, parentEntry, parentDepth, key, buffer);
      }
    }

    /** A rebuild from no entries leaves a leaf without any. */
    method RebuildEmpty(parent: nat, parentEntry: nat, parentDepth: nat)
      requires Valid() && IsInner(nodes, parent) && parent in spots && parentDepth == |spots[parent].path| < DIGITS
      requires parentEntry < BRANCHING_FACTOR && nodes[parent].children[parentEntry] == Empty
      modifies this`nodes, this`spots
      ensures Valid() && IsInner(nodes, parent) && HasLeaf(nodes, nodes[parent].children[parentEntry], [])
    {
      hide NodesOk, Built, Digit, HasPrefix, Get, TrieOk, Agrees, Find, Stored;
      ghost var nodes1, spots1 := nodes, spots;
      SlotParts(hash, nodes, spots, parent, parentEntry, contents);
      NothingEncoded();
      CreateSubtree(parent, parentEntry, parentDepth, []);
      NothingFound();
      BuiltAgrees(hash, nodes1, spots1, nodes, spots, parent, parentEntry, [], contents, contents);
    }

    /** Writing the value would lose the key: the old value needs more than one page, and the new one does
        not, or freeing the old one clears its first page. */
    ghost predicate Loses(key: seq<Byte>, buffer: seq<Byte>, fullLists: set<nat>)
      reads this
    {
      && key in contents && |key| + 9 + |contents[key]| > CAPACITY
      && (|key| + 9 + |buffer| <= CAPACITY || Erases(|key| + 9 + |contents[key]|, fullLists))
    }

    /** Stores a value under a key, given its slot; false stands for the exception for a key of an
        invalid length. `fullLists` are the orders whose free list has no room when the call is made. */
    method WriteAtNode(parent: nat, parentEntry: nat, parentDepth: nat, key: seq<Byte>, buffer: seq<Byte>,
                       fullLists: set<nat>)
      returns (ok: bool)
      requires Valid() && SlotFor(key, parent, parentEntry, parentDepth)
      requires NulFree(key) && |buffer| < U64_LIMIT && Separate(hash, contents.Keys + {key})
      requires key in contents && |key| + 9 + |contents[key]| <= CAPACITY ==> |buffer| >= |contents[key]|
      modifies this
      ensures ok <==> 0 < |key| <= MAX_KEY_LENGTH
      ensures Valid()
      ensures !ok ==> contents == old(contents) && kvEntryCount == old(kvEntryCount) && nodes == old(nodes)
      ensures ok ==>
        contents == if old(Loses(key, buffer, fullLists)) then old(contents) - {key} else old(contents)[key := buffer]
      ensures ok ==> kvEntryCount == old(kvEntryCount) + if key in old(contents) then 0 else 1
    {
      hide NodesOk, Digit, HasPrefix, Get, TrieOk, Agrees, Stored, EncodeAll, Erases, LeafOk, Separate, Find, LinkOk,
           NodeOk, LookupAt;
      ok := 0 < |key| <= MAX_KEY_LENGTH;
      if !ok {
        return;
      }
      SlotParts(hash, nodes, spots, parent, parentEntry, contents);
      var slot := nodes[parent].children[parentEntry];
      if slot == Empty {
        AbsentInEmpty(hash, spots[parent].path + [parentEntry], contents, key);
        AddFirst(parent, parentEntry, parentDepth, key, buffer);
        kvEntryCount := kvEntryCount + 1;
        return;
      }
      var leaf := slot.page;
      var entries := nodes[leaf].entries;
      LeafHoldsKey(hash, entries, spots[parent].path + [parentEntry], contents, key);
      var i := IndexOf(entries, key);
      if i >= 0 {
        var usage := TotalEntriesSize(entries);
        if usage > CAPACITY {
          EncodeParts(entries[i]);
          OverwriteBig(parent, parentEntry, parentDepth, key, buffer, leaf, fullLists);
        } else {
          assert contents.Keys + {key} == contents.Keys;
          UpdateEntry(parent, parentEntry, parentDepth, key, buffer, leaf, i);
        }
      } else {
        kvEntryCount := kvEntryCount + 1;
        AddToLeaf(parent, parentEntry, parentDepth, key, buffer, leaf);
      }
    }

    /** Stores a value under a key. It does so exactly when it would not lose the key, and exactly then
        the entry count stays right. */
    method Write(key: seq<Byte>, buffer: seq<Byte>, fullLists: set<nat>) returns (ok: bool)
      requires Valid() && NulFree(key) && |buffer| < U64_LIMIT && Separate(hash, contents.Keys + {key})
      requires key in contents && |key| + 9 + |contents[key]| <= CAPACITY ==> |buffer| >= |contents[key]|
      modifies this
      ensures ok <==> 0 < |key| <= MAX_KEY_LENGTH
      ensures Valid()
      ensures !ok ==> contents == old(contents) && kvEntryCount == old(kvEntryCount) && nodes == old(nodes)
      ensures ok ==> (contents == old(contents)[key := buffer] <==> !old(Loses(key, buffer, fullLists)))
      ensures ok && old(Loses(key, buffer, fullLists)) ==> contents == old(contents) - {key}
      ensures ok ==> kvEntryCount == old(kvEntryCount) + if key in old(contents) then 0 else 1
      ensures ok && old(kvEntryCount == |contents|) ==>
        (kvEntryCount == |contents| <==> !old(Loses(key, buffer, fullLists)))
    {
      hide TrieOk, Agrees, HasPrefix, Erases;
      var parent, parentEntry, parentDepth := FindParent(key);
      ok := WriteAtNode(parent, parentEntry, parentDepth, key, buffer, fullLists);
      if ok && old(Loses(key, buffer, fullLists)) {
        assert key in old(contents)[key := buffer] && key !in contents;
      }
    }

    /** Replaces the only entry of a leaf by a longer one, in place: a value that outgrows the page goes
        on in further regions. */
    method RewriteSingle(parent: nat, parentEntry: nat, parentDepth: nat, key: seq<Byte>, value: seq<Byte>, leaf: nat)
      requires Valid() && SlotFor(key, parent, parentEntry, parentDepth) && |value| < U64_LIMIT
      requires nodes[parent].children[parentEntry] == Leaf(leaf) && IsLeaf(nodes, leaf)
      requires |nodes[leaf].entries| == 1 && nodes[leaf].entries[0].key == key && Separate(hash, contents.Keys)
      modifies this`nodes, this`spots, this`contents
      ensures Valid() && contents == old(contents)[key := value]
      ensures nodes == old(nodes)[leaf := LeafNode([Entry(key, value)])]
    {
      hide NodesOk, Digit, HasPrefix, Get, TrieOk, Agrees, Find, Buildable, GoodEntry, Stored, SlotHolds, Separate, EncodeAll, LeafOk;
      ghost var path := spots[parent].path + [parentEntry];
      SlotParts(hash, nodes, spots, parent, parentEntry, contents);
      var entries := nodes[leaf].entries;
      var entries' := entries[0 := Entry(key, value)];
      assert entries' == [Entry(key, value)];
      UpdatedBuildable(hash, entries, 0, value, path, contents);
      contents := contents[key := value];
      forall k ensures Stored(contents, k) == if HasPrefix(hash(k), path) then Find(entries', k) else Stored(old(contents), k) {
        UpdatedContents(hash, entries, 0, value, path, old(contents), k);
      }
      BuildableLeaf(hash, entries', path);
      nodes := nodes[leaf := LeafNode(entries')];
      LeafEdited(hash, old(nodes), spots, parent, parentEntry, leaf, entries', old(contents), contents);
    }

    /** Writes a part of a value, which grows when it has to; without an offset it appends. A missing key
        gets a new value of the length of the buffer: for a positive offset that is not what was asked
        for, but the first bytes of the zeros and the buffer. */
    method WritePart(key: seq<Byte>, offset: Option<nat>, buffer: seq<Byte>) returns (ok: bool)
      requires Valid() && NulFree(key) && Separate(hash, contents.Keys + {key})
      requires |buffer| < U64_LIMIT && (key in contents ==> |PartWritten(contents[key], PartOffset(contents[key], offset), buffer)| < U64_LIMIT)
      modifies this
      ensures ok <==> 0 < |key| <= MAX_KEY_LENGTH
      ensures Valid()
      ensures !ok ==> contents == old(contents) && kvEntryCount == old(kvEntryCount)
      ensures ok && key in old(contents) ==>
                contents == old(contents)[key := PartWritten(old(contents)[key], PartOffset(old(contents)[key], offset), buffer)]
      ensures ok && key !in old(contents) ==>
                contents == old(contents)[key := (Zeros(PartOffset([], offset)) + buffer)[..|buffer|]]
      ensures ok && key !in old(contents) ==>
                (contents == old(contents)[key := PartWritten([], PartOffset([], offset), buffer)] <==> PartOffset([], offset) == 0)
      ensures ok ==> key in contents
      ensures ok && key in old(contents) ==>
                WrittenOver(old(contents)[key], contents[key], if offset.Some? then offset.value else |old(contents)[key]|, buffer)
      ensures ok && key !in old(contents) ==>
        var at := if offset.Some? then offset.value else 0;
        PushedBack(contents[key], at, buffer) && (WrittenOver([], contents[key], at, buffer) <==> at == 0)
      ensures ok ==> kvEntryCount == old(kvEntryCount) + if key in old(contents) then 0 else 1
      ensures ok && old(kvEntryCount == |contents|) ==> kvEntryCount == |contents|
    {
      hide NodesOk, Digit, HasPrefix, Get, TrieOk, Agrees, Stored, EncodeAll, PartWritten, LeafOk, Separate, Erases, WrittenOver,
           PushedBack;
      MissingPart(contents, key, PartOffset([], offset), buffer);
      if key in contents {
        PartIsWrittenOver(contents[key], PartOffset(contents[key], offset), buffer);
      } else {
        CutIsPushedBack(PartOffset([], offset), buffer);
      }
      var parent, parentEntry, parentDepth := FindParent(key);
      SlotParts(hash, nodes, spots, parent, parentEntry, contents);
      var slot := nodes[parent].children[parentEntry];
      ghost var path := spots[parent].path + [parentEntry];
      if slot == Empty {
        AbsentInEmpty(hash, path, contents, key);
        ok := WriteAtNode(parent, parentEntry, parentDepth, key, (Zeros(PartOffset([], offset)) + buffer)[..|buffer|], {});
        return;
      }
      var entries := nodes[slot.page].entries;
      LeafHoldsKey(hash, entries, path, contents, key);
      var i := IndexOf(entries, key);
      if i < 0 {
        ok := WriteAtNode(parent, parentEntry, parentDepth, key, (Zeros(PartOffset([], offset)) + buffer)[..|buffer|], {});
        return;
      }
      StoredKeyOk(hash, entries, path, contents, i);
      SeparateSubset(hash, contents.Keys, key);
      ok := true;
      var value := PartWritten(entries[i].value, PartOffset(entries[i].value, offset), buffer);
      if |entries| == 1 {
        RewriteSingle(parent, parentEntry, parentDepth, key, value, slot.page);
      } else {
        UpdateEntry(parent, parentEntry, parentDepth, key, value, slot.page, i);
      }
    }

    /** Reads a part of a value from an offset in it, up to its end. */
    method ReadPart(key: seq<Byte>, offset: nat, length: nat) returns (found: bool, part: seq<Byte>)
      requires Valid() && (key in contents ==> offset <= |contents[key]|)
      ensures found <==> key in contents
      ensures found ==> (offset + length <= |contents[key]| ==> part == contents[key][offset..offset + length])
                        && (offset + length > |contents[key]| ==> part == contents[key][offset..])
    {
      hide TrieOk, Agrees;
      var value;
      found, value := Read(key);
      part := [];
      if found {
        var n := if length < |value| - offset then length else |value| - offset;
        part := value[offset..offset + n];
      }
    }

    // ---- removing ----

    /** The page `p` hangs in slot `gb` of page `g`. */
    ghost predicate HangsIn(g: nat, gb: nat, p: nat)
      reads this
    {
      IsInner(nodes, g) && g in spots && gb < BRANCHING_FACTOR && nodes[g].children[gb] == Internal(p)
    }

    /** The slot that leads to the leaf for a key, and the slot that leads to its page; false when the
        slot is empty, and -1 when the page is the root. */
    method FindLeaf(key: seq<Byte>) returns (ok: bool, grandparent: nat, grandparentEntry: int, parent: nat,
                    parentEntry: nat, ghost parentDepth: nat)
      requires TrieOk(hash, nodes, spots)
      ensures SlotFor(key, parent, parentEntry, parentDepth) && (ok <==> nodes[parent].children[parentEntry] != Empty)
      ensures grandparentEntry >= -1 && (grandparentEntry >= 0 ==> HangsIn(grandparent, grandparentEntry, parent))
      ensures grandparentEntry == -1 ==> parent == ROOT_PAGE
      ensures (parent, parentEntry) == SlotOf(hash, nodes, ROOT_PAGE, 0, key)
    {
      hide Digit, LeafOk, LinkOk, HasPrefix;
      parent, grandparent, parentDepth, parentEntry := ROOT_PAGE, ROOT_PAGE, 0, 0;
      var entry: int, depth: nat := -1, 1;
      assert HasPrefix(hash(key), []) by { EmptyPrefix(hash(key)); }
      while true
        invariant IsInner(nodes, parent) && parent in spots && parentDepth == |spots[parent].path| == depth - 1
        invariant HasPrefix(hash(key), spots[parent].path)
        invariant entry >= -1 && (entry >= 0 ==> HangsIn(grandparent, entry, parent)) && (entry == -1 ==> parent == ROOT_PAGE)
        invariant SlotOf(hash, nodes, parent, parentDepth, key) == SlotOf(hash, nodes, ROOT_PAGE, 0, key)
        decreases DIGITS - depth
      {
        InnerIsShallow(hash, nodes, spots, parent);
        grandparentEntry := entry;
        parentEntry := GetBucket(hash, key, depth);
        PrefixSnoc(hash(key), spots[parent].path, parentEntry);
        var value := nodes[parent].children[parentEntry];
        assert NodeOk(hash, nodes, spots, parent) && ChildOk(nodes, spots, parent, parentEntry);
        if value == Empty {
          ok := false;
          return;
        }
        if !value.Internal? {
          ok := true;
          return;
        }
        assert NodeOk(hash, nodes, spots, value.page);
        depth, entry := depth + 1, parentEntry;
        grandparent, parent, parentDepth := parent, value.page, parentDepth + 1;
      }
    }

    /** Counts the children of a page up to two, and tells which one was seen last. */
    method CountChildren(p: nat) returns (count: nat, sibling: Pointer, ghost at: nat)
      requires IsInner(nodes, p)
      ensures count <= 2
      ensures count == 1 ==> OnlyChild(nodes[p].children, at) && sibling == nodes[p].children[at]
      ensures count != 1 ==> forall j :: !OnlyChild(nodes[p].children, j)
    {
      count, sibling, at := 0, Empty, 0;
      ghost var other := 0;
      var children := nodes[p].children;
      for i := 0 to BRANCHING_FACTOR
        invariant count <= 1
        invariant count == 0 ==> forall k :: 0 <= k < i ==> children[k] == Empty
        invariant count == 1 ==> at < i && children[at] == sibling != Empty
                                 && forall k :: 0 <= k < i && k != at ==> children[k] == Empty
      {
        if children[i] != Empty {
          sibling := children[i];
          count := count + 1;
          if count > 1 {
            return;
          }
          at := i;
        }
      }
    }

    ghost predicate Collapses(key: seq<Byte>)
      reads this
    {
      exists j :: CollapsesAt(hash, nodes, spots, key, j)
    }

    /** Removing the key loses others. */
    ghost predicate LosesOthers(key: seq<Byte>)
      reads this
    {
      OthersLost(hash, nodes, spots, contents, key)
    }

    /** Removes a leaf with its only entry; a page below the root that has one child left then makes
        way for it. */
    method RemoveLeaf(grandparent: nat, grandparentEntry: int, parent: nat, parentEntry: nat, key: seq<Byte>,
                      leaf: nat, ghost parentDepth: nat)
      requires Valid() && SlotFor(key, parent, parentEntry, parentDepth)
      requires (parent, parentEntry) == SlotOf(hash, nodes, ROOT_PAGE, 0, key)
      requires nodes[parent].children[parentEntry] == Leaf(leaf) && IsLeaf(nodes, leaf)
      requires |nodes[leaf].entries| == 1 && nodes[leaf].entries[0].key == key
      requires grandparentEntry >= -1 && (grandparentEntry >= 0 ==> HangsIn(grandparent, grandparentEntry, parent))
      requires grandparentEntry == -1 ==> parent == ROOT_PAGE
      modifies this`nodes, this`spots, this`contents
      ensures contents == old(contents) - {key}
      ensures LeafRemoved(old(nodes), nodes, parent, parentEntry) && NoPageLost(nodes, spots)
      ensures !old(Collapses(key)) ==> Valid()
      ensures Agrees(hash, nodes, contents) <==> !old(LosesOthers(key))
      ensures FindsNothingElse(hash, nodes, contents)
    {
      hide NodesOk, Built, Digit, HasPrefix, Get, TrieOk, Agrees, Find, GoodEntry, Stored, LeafOk, SlotSet, SlotOf, TakesOnly,
           NoPageLost, LeafRemoved, CollapsesAt, OthersLost, FindsNothingElse;
      ghost var path, e := spots[parent].path + [parentEntry], nodes[leaf].entries[0];
      SlotParts(hash, nodes, spots, parent, parentEntry, contents);
      assert nodes[leaf].entries == [e];
      OneKeyOut(hash, e, path, contents);
      if grandparentEntry >= 0 {
        HangsBelow(hash, nodes, spots, grandparent, grandparentEntry, parent);
      }
      ghost var children := nodes[parent].children;
      ReplaceSlot(parent, parentEntry, Empty);
      EmptiedBuilt(hash, old(nodes), old(spots), nodes, spots, parent, parentEntry);
      contents := contents - {key};
      NothingFound();
      BuiltAgrees(hash, old(nodes), old(spots), nodes, spots, parent, parentEntry, [], old(contents), contents);
      ChildIsOld(hash, old(nodes), old(spots), parent, parentEntry);
      SlotSetParts(old(nodes), old(spots), nodes, spots, parent, parentEntry, Empty);
      assert nodes[parent].children == children[parentEntry := Empty];
      AgreesFindsNothingElse(hash, nodes, contents);
      TrieLosesNoPage(hash, nodes, spots);
      if grandparentEntry == -1 {
        LeafOnlyRemoved(old(nodes), nodes, parent, parentEntry);
        NothingMovesUp(hash, old(nodes), old(spots), old(contents), key, parent, parentEntry);
      } else {
        SlotSetOther(old(nodes), old(spots), nodes, spots, parent, parentEntry, Empty, grandparent);
        var count, sibling, at := CountChildren(parent);
        if count != 1 {
          LeafOnlyRemoved(old(nodes), nodes, parent, parentEntry);
          NothingMovesUp(hash, old(nodes), old(spots), old(contents), key, parent, parentEntry);
        } else {
          LeafRemovedIs(hash, old(nodes), old(spots), nodes, Collapsed(nodes, grandparent, grandparentEntry, parent, sibling), parent,
                        parentEntry, grandparent, grandparentEntry, at);
          CollapseLosesNoPage(hash, nodes, spots, grandparent, grandparentEntry, parent, at);
          if sibling.Leaf? {
            CollapseParts(hash, nodes, spots, grandparent, grandparentEntry, parent, at, sibling.page);
            CollapseAgrees(hash, nodes, spots, grandparent, grandparentEntry, parent, at, sibling.page, contents);
            AgreesFindsNothingElse(hash, Collapsed(nodes, grandparent, grandparentEntry, parent, sibling), contents);
            NothingMovesUp(hash, old(nodes), old(spots), old(contents), key, parent, parentEntry);
          } else {
            MovedUpAgreesIff(hash, old(nodes), old(spots), nodes, spots, old(contents), key, grandparent, grandparentEntry, parent,
                             parentEntry, at);
          }
          nodes := Collapsed(nodes, grandparent, grandparentEntry, parent, sibling);
          spots := (spots - {parent})[sibling.page := Spot(spots[grandparent].path + [grandparentEntry], grandparent)];
        }
      }
    }

    /** The removal itself. The count follows the keys stored, whether or not they can still be found. */
    method RemoveEntry(key: seq<Byte>) returns (found: bool)
      requires Valid() && NulFree(key)
      modifies this
      ensures found <==> key in old(contents)
      ensures contents == old(contents) - {key}
      ensures forall p, b: nat :: old(AloneAt(nodes, key, p, b)) ==> LeafRemoved(old(nodes), nodes, p, b)
      ensures forall p, b: nat, i: nat :: old(KeyAt(nodes, key, p, b, i) && !AloneAt(nodes, key, p, b)) ==>
                var leaf := old(nodes)[p].children[b].page;
                nodes == old(nodes)[leaf := LeafNode(Cut(old(nodes)[leaf].entries, i))]
      ensures NoPageLost(nodes, spots)
      ensures Agrees(hash, nodes, contents) <==> !(found && old(LosesOthers(key)))
      ensures !(found && old(Collapses(key))) ==> Valid()
      ensures !found ==> nodes == old(nodes)
      ensures FindsNothingElse(hash, nodes, contents)
      ensures kvEntryCount == old(kvEntryCount) - if found then 1 else 0
    {
      hide NodesOk, Digit, HasPrefix, Get, TrieOk, Agrees, Stored, EncodeAll, LeafOk, Find, FindsNothingElse, NoPageLost,
           LeafRemoved, SlotOf;
      AgreesFindsNothingElse(hash, nodes, contents);
      TrieLosesNoPage(hash, nodes, spots);
      forall p, b: nat, i: nat | KeyAt(nodes, key, p, b, i)
        ensures SlotOf(hash, nodes, ROOT_PAGE, 0, key) == (p, b) && IndexOf(nodes[nodes[p].children[b].page].entries, key) == i
      {
        KeyIsInItsSlot(hash, nodes, spots, key, p, b, i);
      }
      var ok, grandparent, grandparentEntry, parent, parentEntry, parentDepth := FindLeaf(key);
      ghost var path := spots[parent].path + [parentEntry];
      SlotParts(hash, nodes, spots, parent, parentEntry, contents);
      if !ok {
        AbsentInEmpty(hash, path, contents, key);
        return false;
      }
      var leaf := nodes[parent].children[parentEntry].page;
      var entries := nodes[leaf].entries;
      LeafHoldsKey(hash, entries, path, contents, key);
      var i := IndexOf(entries, key);
      if i < 0 {
        return false;
      }
      found := true;
      if |entries| == 1 {
        RemoveLeaf(grandparent, grandparentEntry, parent, parentEntry, key, leaf, parentDepth);
      } else {
        DroppedLeafOk(hash, entries, i, path);
        nodes := nodes[leaf := LeafNode(Cut(entries, i))];
        contents := contents - {key};
        forall k ensures Stored(contents, k)
                      == if HasPrefix(hash(k), path) then Find(Cut(entries, i), k) else Stored(old(contents), k) {
          DroppedContents(hash, entries, i, path, old(contents), k);
        }
        LeafEdited(hash, old(nodes), spots, parent, parentEntry, leaf, Cut(entries, i), old(contents), contents);
        TrieLosesNoPage(hash, nodes, spots);
        AgreesFindsNothingElse(hash, nodes, contents);
      }
      kvEntryCount := kvEntryCount - 1;
    }

    /** Removes a key, and tells whether it was there. The entry count is then the number of keys that can
        be found exactly when no other key was lost. */
    method Remove(key: seq<Byte>) returns (found: bool)
      requires Valid() && NulFree(key)
      modifies this
      ensures found <==> key in old(contents)
      ensures contents == old(contents) - {key}
      ensures forall p, b: nat :: old(AloneAt(nodes, key, p, b)) ==> LeafRemoved(old(nodes), nodes, p, b)
      ensures forall p, b: nat, i: nat :: old(KeyAt(nodes, key, p, b, i) && !AloneAt(nodes, key, p, b)) ==>
                var leaf := old(nodes)[p].children[b].page;
                nodes == old(nodes)[leaf := LeafNode(Cut(old(nodes)[leaf].entries, i))]
      ensures NoPageLost(nodes, spots)
      ensures Agrees(hash, nodes, contents) <==> !(found && old(LosesOthers(key)))
      ensures !(found && old(Collapses(key))) ==> Valid()
      ensures !found ==> nodes == old(nodes)
      ensures FindsNothingElse(hash, nodes, contents)
      ensures kvEntryCount == old(kvEntryCount) - if found then 1 else 0
      ensures old(kvEntryCount == |contents|) ==> kvEntryCount == |contents|
      ensures old(kvEntryCount == |contents|) ==>
        (kvEntryCount == |Findable(hash, nodes, contents)| <==> !(found && old(LosesOthers(key))))
    {
      found := RemoveEntry(key);
      AgreesWhenAllFound(hash, nodes, contents);
    }
  }
}
