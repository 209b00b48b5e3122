/** The hash trie: internal nodes branch on base-512 digits of the 64-bit hash of a key, leaves hold
    the entries. Lookup, and what keeps it a trie. */
module HashTrie {
  import opened Bytes
  import opened BigValue
  import opened LeafCodec

  const BRANCHING_FACTOR: nat := 512   // pointers of 8 bytes on a page
  const DIGITS: nat := 8    // 64 bits in digits of 9 bits, rounded up
  const ROOT_PAGE: nat := 1

  /** An internal node takes a whole page, and its digits those of a 64-bit hash with none to spare. */
  lemma InnerNodeFillsPage()
    ensures BRANCHING_FACTOR * 8 == PAGE_SIZE
    ensures 9 * (DIGITS - 1) < 64 <= 9 * DIGITS
  {
  }

  type Hash64 = x: nat | x < U64_LIMIT
  type HashFunction = seq<Byte> -> Hash64

  function Digit(hash: nat, i: nat): (d: nat)
    ensures d < BRANCHING_FACTOR
  {
    if i == 0 then hash % BRANCHING_FACTOR else Digit(hash / BRANCHING_FACTOR, i - 1)
  }

  function Pow512(n: nat): (p: nat)
    ensures p >= 1
  {
    if n == 0 then 1 else BRANCHING_FACTOR * Pow512(n - 1)
  }

  /** Numbers below 512^n with the same `n` digits are the same. */
  lemma {:induction false} DigitsDetermine(x: nat, y: nat, n: nat)
    requires x < Pow512(n) && y < Pow512(n) && forall i :: 0 <= i < n ==> Digit(x, i) == Digit(y, i)
    ensures x == y
  {
    if n == 0 {
    } else {
      assert Digit(x, 0) == Digit(y, 0);
      forall i | 0 <= i < n - 1 ensures Digit(x / BRANCHING_FACTOR, i) == Digit(y / BRANCHING_FACTOR, i) {
        assert Digit(x, i + 1) == Digit(y, i + 1);
      }
      DigitsDetermine(x / BRANCHING_FACTOR, y / BRANCHING_FACTOR, n - 1);
    }
  }

  lemma {:induction false} NoDigitsLeft(x: nat, i: nat, n: nat)
    requires x < Pow512(n) && i >= n
    ensures Digit(x, i) == 0
    decreases i
  {
    if i == 0 {
      assert Pow512(0) == 1;
    } else if n == 0 {
      NoDigitsLeft(x / BRANCHING_FACTOR, i - 1, 0);
    } else {
      NoDigitsLeft(x / BRANCHING_FACTOR, i - 1, n - 1);
    }
  }

  lemma HashesHaveEightDigits()
    ensures Pow512(DIGITS) >= U64_LIMIT
  {
    assert Pow512(1) == 512 && Pow512(2) == 262144;
    assert Pow512(3) == 512 * 262144;
    assert Pow512(4) == 262144 * 262144;
    assert Pow512(5) == 512 * Pow512(4);
    assert Pow512(6) == 512 * Pow512(5);
    assert Pow512(7) == 512 * Pow512(6);
  }

  method BucketOfHash(hash: nat, depth: nat) returns (bucket: nat)
    ensures bucket == Digit(hash, depth)
  {
    var rest: nat, d: nat := hash, depth;
    while d > 0
      invariant Digit(rest, d) == Digit(hash, depth)
    {
      rest := rest / BRANCHING_FACTOR;
      d := d - 1;
    }
    bucket := rest % BRANCHING_FACTOR;
  }

  /** The bucket of a key in the parent of a node at `depth`. From the eighth internal level on other
      hash functions are meant to take over, but as the depth still counts from the root their
      digits are all zero. */
  method GetBucket(hash: HashFunction, key: seq<Byte>, depth: nat) returns (bucket: nat)
    requires depth > 0
    ensures depth <= DIGITS ==> bucket == Digit(hash(key), depth - 1)
    ensures depth > DIGITS ==> bucket == 0
  {
    var hashFunction := (depth - 1) / DIGITS;
    var hashKey := if hashFunction > 0 then [(48 + hashFunction) % 256] + key else key;
    bucket := BucketOfHash(hash(hashKey), depth - 1);
    HashesHaveEightDigits();
    if depth > DIGITS {
      NoDigitsLeft(hash(hashKey), depth - 1, DIGITS);
    }
  }

  // ---- nodes ----

  /** An entry of an internal node: the most significant bit tells the two kinds of child apart. */
  datatype Pointer = Empty | Internal(page: nat) | Leaf(page: nat)

  datatype Node = Inner(children: seq<Pointer>) | LeafNode(entries: seq<Entry>)

  type Nodes = map<nat, Node>

  datatype Option<T> = None | Some(value: T)

  function Find(entries: seq<Entry>, key: seq<Byte>): Option<seq<Byte>> {
    var i := IndexOf(entries, key);
    if i < 0 then None else Some(entries[i].value)
  }

  predicate IsInner(nodes: Nodes, p: nat) {
    p in nodes && nodes[p].Inner? && |nodes[p].children| == BRANCHING_FACTOR
  }

  predicate IsLeaf(nodes: Nodes, p: nat) {
    p in nodes && nodes[p].LeafNode?
  }

  /** What a reader finds that follows the digits of the hash of a key from a pointer at depth `d`. */
  function LookupAt(hash: HashFunction, nodes: Nodes, p: Pointer, d: nat, key: seq<Byte>): Option<seq<Byte>>
    decreases DIGITS - d
  {
    match p
    case Empty => None
    case Leaf(q) => if IsLeaf(nodes, q) then Find(nodes[q].entries, key) else None
    case Internal(q) =>
      if d < DIGITS && IsInner(nodes, q) then
        LookupAt(hash, nodes, nodes[q].children[Digit(hash(key), d)], d + 1, key)
      else
        None
  }

  function Get(hash: HashFunction, nodes: Nodes, key: seq<Byte>): Option<seq<Byte>> {
    LookupAt(hash, nodes, Internal(ROOT_PAGE), 0, key)
  }

  // ---- what makes the pages a trie ----

  /** The place of a page in the trie: the digits that lead to it, and the page they come from. */
  datatype Spot = Spot(path: seq<nat>, parent: nat)

  type Spots = map<nat, Spot>

  predicate HasPrefix(hash: nat, path: seq<nat>) {
    forall i :: 0 <= i < |path| ==> path[i] == Digit(hash, i)
  }

  predicate DistinctKeys(entries: seq<Entry>) {
    forall i, j :: 0 <= i < j < |entries| ==> entries[i].key != entries[j].key
  }

  /** Only one entry, or they fit on one page. */
  predicate FitsLeaf(entries: seq<Entry>) {
    |entries| == 1 || |EncodeAll(entries)| <= CAPACITY
  }

  ghost predicate Routed(hash: HashFunction, entries: seq<Entry>, path: seq<nat>) {
    forall i :: 0 <= i < |entries| ==> HasPrefix(hash(entries[i].key), path)
  }

  ghost predicate LeafOk(hash: HashFunction, entries: seq<Entry>, path: seq<nat>) {
    AllGood(entries) && DistinctKeys(entries) && FitsLeaf(entries) && Routed(hash, entries, path)
  }

  function PointerTo(nodes: Nodes, p: nat): Pointer
    requires p in nodes
  {
    if nodes[p].Inner? then Internal(p) else Leaf(p)
  }

  /** The pointer in slot `b` of page `p` leads to a page of its kind, whose spot says so. */
  ghost predicate ChildOk(nodes: Nodes, spots: Spots, p: nat, b: nat)
    requires IsInner(nodes, p) && p in spots && b < BRANCHING_FACTOR
  {
    var child := nodes[p].children[b];
    child == Empty ||
    (&& child.page in nodes && child == PointerTo(nodes, child.page)
     && child.page in spots && spots[child.page] == Spot(spots[p].path + [b], p))
  }

  ghost predicate NodeOk(hash: HashFunction, nodes: Nodes, spots: Spots, p: nat)
    requires p in nodes && p in spots
  {
    match nodes[p]
    case Inner(children) =>
      |children| == BRANCHING_FACTOR && |spots[p].path| < DIGITS
      && forall b :: 0 <= b < BRANCHING_FACTOR ==> ChildOk(nodes, spots, p, b)
    case LeafNode(entries) => LeafOk(hash, entries, spots[p].path)
  }

  /** The page is where its spot says. */
  ghost predicate LinkOk(nodes: Nodes, spots: Spots, p: nat)
    requires p in nodes && p in spots
  {
    var s := spots[p];
    && s.path != [] && IsInner(nodes, s.parent) && s.parent in spots
    && spots[s.parent].path == s.path[..|s.path| - 1]
    && s.path[|s.path| - 1] < BRANCHING_FACTOR
    && nodes[s.parent].children[s.path[|s.path| - 1]] == PointerTo(nodes, p)
  }

  /** Pages without a spot are not part of the trie. */
  ghost predicate NodesOk(hash: HashFunction, nodes: Nodes, spots: Spots) {
    && spots.Keys <= nodes.Keys
    && forall p :: p in spots ==> NodeOk(hash, nodes, spots, p)
  }

  ghost predicate TrieOk(hash: HashFunction, nodes: Nodes, spots: Spots) {
    && NodesOk(hash, nodes, spots)
    && IsInner(nodes, ROOT_PAGE) && ROOT_PAGE in spots && spots[ROOT_PAGE].path == []
    && forall p :: p in spots && p != ROOT_PAGE ==> LinkOk(nodes, spots, p)
  }

  // ---- routes ----

  /** Keys that share the digits of a page are looked up through it. */
  lemma {:induction false} LookupThrough(hash: HashFunction, nodes: Nodes, spots: Spots, p: nat, key: seq<Byte>)
    requires TrieOk(hash, nodes, spots) && p in spots && HasPrefix(hash(key), spots[p].path)
    ensures Get(hash, nodes, key) == LookupAt(hash, nodes, PointerTo(nodes, p), |spots[p].path|, key)
    decreases |spots[p].path|
  {
    hide Digit, Find, LeafOk;
    if p == ROOT_PAGE {
    } else {
      assert LinkOk(nodes, spots, p);
      var s := spots[p];
      assert NodeOk(hash, nodes, spots, s.parent);
      LookupThrough(hash, nodes, spots, s.parent, key);
    }
  }

  function ChildPages(child: Pointer): set<nat> {
    if child == Empty then {} else {child.page}
  }

  /** `nodes'` differs from `nodes` in slot `b` of page `p` and in pages that are new; the page that
      was in the slot, if any, may be gone. */
  ghost predicate Grafted(nodes: Nodes, spots: Spots, nodes': Nodes, p: nat, b: nat) {
    && IsInner(nodes, p) && IsInner(nodes', p) && p in spots && b < BRANCHING_FACTOR
    && (forall i :: 0 <= i < BRANCHING_FACTOR && i != b ==> nodes'[p].children[i] == nodes[p].children[i])
    && (forall q :: q in spots && q in nodes && q != p && q !in ChildPages(nodes[p].children[b]) ==> q in nodes' && nodes'[q] == nodes[q])
  }

  /** Keys that do not go through the slot are found as before. */
  lemma {:induction false} LookupBeside(hash: HashFunction, nodes: Nodes, spots: Spots, nodes': Nodes, p: nat, b: nat,
                                        q: nat, key: seq<Byte>)
    requires NodesOk(hash, nodes, spots) && Grafted(nodes, spots, nodes', p, b)
    requires IsInner(nodes, q) && q in spots
    requires HasPrefix(hash(key), spots[q].path) && !HasPrefix(hash(key), spots[p].path + [b])
    ensures LookupAt(hash, nodes', Internal(q), |spots[q].path|, key) == LookupAt(hash, nodes, Internal(q), |spots[q].path|, key)
    decreases DIGITS - |spots[q].path|
  {
    hide Digit, Find, LeafOk;
    assert NodeOk(hash, nodes, spots, q) && NodeOk(hash, nodes, spots, p);
    var d := |spots[q].path|;
    var i := Digit(hash(key), d);
    var child := nodes[q].children[i];
    assert ChildOk(nodes, spots, q, i) && ChildOk(nodes, spots, p, b);
    assert HasPrefix(hash(key), spots[q].path + [i]);
    assert nodes'[q].children[i] == child;
    if child.Internal? {
      LookupBeside(hash, nodes, spots, nodes', p, b, child.page, key);
    }
  }

  /** The effect of changing one slot: keys with its digits are looked up below it, the others as before. */
  lemma GraftEffect(hash: HashFunction, nodes: Nodes, spots: Spots, nodes': Nodes, spots': Spots, p: nat, b: nat,
                    key: seq<Byte>)
    requires TrieOk(hash, nodes, spots) && TrieOk(hash, nodes', spots') && Grafted(nodes, spots, nodes', p, b)
    requires p in spots' && spots'[p] == spots[p]
    ensures var path := spots[p].path + [b];
      Get(hash, nodes', key) ==
      if HasPrefix(hash(key), path) then LookupAt(hash, nodes', nodes'[p].children[b], |path|, key) else Get(hash, nodes, key)
  {
    hide Digit, Find, LeafOk, NodeOk, LinkOk;
    if HasPrefix(hash(key), spots[p].path + [b]) {
      LookupInSlot(hash, nodes', spots', p, b, key);
    } else {
      LookupBeside(hash, nodes, spots, nodes', p, b, ROOT_PAGE, key);
    }
  }

  /** Keys with the digits of a slot are looked up in it. */
  lemma LookupInSlot(hash: HashFunction, nodes: Nodes, spots: Spots, p: nat, b: nat, key: seq<Byte>)
    requires TrieOk(hash, nodes, spots) && IsInner(nodes, p) && p in spots && b < BRANCHING_FACTOR
    requires HasPrefix(hash(key), spots[p].path + [b])
    ensures Get(hash, nodes, key) == LookupAt(hash, nodes, nodes[p].children[b], |spots[p].path| + 1, key)
  {
    hide Digit, Find, LeafOk, NodeOk, LinkOk;
    PrefixSnoc(hash(key), spots[p].path, b);
    LookupThrough(hash, nodes, spots, p, key);
    InnerIsShallow(hash, nodes, spots, p);
  }

  lemma PrefixSnoc(h: nat, path: seq<nat>, b: nat)
    ensures HasPrefix(h, path + [b]) <==> HasPrefix(h, path) && Digit(h, |path|) == b
  {
    hide Digit;
    var longer := path + [b];
    assert forall i :: 0 <= i < |path| ==> path[i] == longer[i];
    assert longer[|path|] == b;
  }

  lemma InnerIsShallow(hash: HashFunction, nodes: Nodes, spots: Spots, p: nat)
    requires NodesOk(hash, nodes, spots) && IsInner(nodes, p) && p in spots
    ensures |spots[p].path| < DIGITS
  {
    assert NodeOk(hash, nodes, spots, p);
  }

  /** Two different hashes differ in one of their eight digits. */
  lemma DistinctHashesPart(h: Hash64, h': Hash64, path: seq<nat>)
    requires HasPrefix(h, path) && HasPrefix(h', path) && h != h'
    ensures |path| < DIGITS
  {
    hide Digit;
    if |path| >= DIGITS {
      HashesHaveEightDigits();
      forall i | 0 <= i < DIGITS ensures Digit(h, i) == Digit(h', i) {
        assert path[i] == Digit(h, i);
      }
      DigitsDetermine(h, h', DIGITS);
    }
  }

  // ---- changing a slot ----

  /** A page that nothing points to yet becomes part of the trie's pages. */
  lemma LoosePage(hash: HashFunction, nodes: Nodes, spots: Spots, nodes': Nodes, spots': Spots, q: nat, s: Spot)
    requires NodesOk(hash, nodes, spots) && q !in spots && q in nodes'
    requires spots' == spots[q := s] && forall p :: p in spots ==> p in nodes' && nodes'[p] == nodes[p]
    requires match nodes'[q]
             case Inner(children) => |children| == BRANCHING_FACTOR && |s.path| < DIGITS && forall b :: 0 <= b < BRANCHING_FACTOR ==> children[b] == Empty
             case LeafNode(entries) => LeafOk(hash, entries, s.path)
    ensures NodesOk(hash, nodes', spots')
    ensures forall p :: p in spots && LinkOk(nodes, spots, p) ==> LinkOk(nodes', spots', p)
  {
    hide LeafOk;
    forall p | p in spots' ensures NodeOk(hash, nodes', spots', p) {
      if p != q {
        assert NodeOk(hash, nodes, spots, p);
        if nodes[p].Inner? {
          forall b | 0 <= b < BRANCHING_FACTOR ensures ChildOk(nodes', spots', p, b) {
            assert ChildOk(nodes, spots, p, b);
          }
        }
      }
    }
  }

  function LeafPages(child: Pointer): set<nat> {
    if child.Leaf? then {child.page} else {}
  }

  /** Slot `b` of page `p` is set to `ptr`; a leaf that was there is no longer part of the trie. */
  ghost predicate SlotSet(nodes: Nodes, spots: Spots, nodes': Nodes, spots': Spots, p: nat, b: nat, ptr: Pointer) {
    && IsInner(nodes, p) && p in spots && b < BRANCHING_FACTOR && p in nodes'
    && nodes'[p] == Inner(nodes[p].children[b := ptr])
    && spots' == spots - LeafPages(nodes[p].children[b])
    && (forall q :: q in spots' && q in nodes && q != p ==> q in nodes' && nodes'[q] == nodes[q])
    && (ptr == Empty ||
        (&& ptr.page in spots' && ptr.page in nodes && ptr.page != p && ptr == PointerTo(nodes, ptr.page)
         && spots[ptr.page] == Spot(spots[p].path + [b], p)))
  }

  lemma SlotSetOk(hash: HashFunction, nodes: Nodes, spots: Spots, nodes': Nodes, spots': Spots, p: nat, b: nat,
                  ptr: Pointer)
    requires NodesOk(hash, nodes, spots) && SlotSet(nodes, spots, nodes', spots', p, b, ptr)
    requires !nodes[p].children[b].Internal?
    ensures NodesOk(hash, nodes', spots') && p in spots' && IsInner(nodes', p)
    ensures forall q :: q in spots' && LinkOk(nodes, spots, q) ==> LinkOk(nodes', spots', q)
    ensures ptr != Empty ==> ptr.page in spots' && LinkOk(nodes', spots', ptr.page)
  {
    hide LeafOk;
    assert NodeOk(hash, nodes, spots, p);
    assert ChildOk(nodes, spots, p, b);
    forall q | q in spots' ensures q in nodes' && NodeOk(hash, nodes', spots', q) {
      assert NodeOk(hash, nodes, spots, q);
      if nodes[q].Inner? {
        forall i | 0 <= i < BRANCHING_FACTOR ensures ChildOk(nodes', spots', q, i) {
          assert ChildOk(nodes, spots, q, i);
          assert spots[q].path + [i] == spots[p].path + [b] ==> (spots[q].path + [i])[|spots[q].path|] == (spots[p].path + [b])[|spots[p].path|];
        }
      }
    }
    forall q | q in spots' && LinkOk(nodes, spots, q) ensures LinkOk(nodes', spots', q) {
      assert NodeOk(hash, nodes, spots, spots[q].parent);
    }
    if ptr != Empty {
      var path := spots[p].path + [b];
      assert path[..|path| - 1] == spots[p].path && path[|path| - 1] == b;
    }
  }

  /** Below a page deeper than `p`, nothing changes when only `p` and a leaf right below it do. */
  lemma {:induction false} LookupBelow(hash: HashFunction, nodes: Nodes, spots: Spots, nodes': Nodes, p: nat,
                                       gone: Pointer,
                                       q: nat, key: seq<Byte>)
    requires NodesOk(hash, nodes, spots) && p in spots && q in spots
    requires forall x :: x in spots && x in nodes && x != p && Leaf(x) != gone ==> x in nodes' && nodes'[x] == nodes[x]
    requires gone.Leaf? ==> gone.page in spots && |spots[gone.page].path| == |spots[p].path| + 1
    requires |spots[q].path| > |spots[p].path| && Leaf(q) != gone
    ensures LookupAt(hash, nodes', PointerTo(nodes, q), |spots[q].path|, key) == LookupAt(hash, nodes, PointerTo(nodes, q), |spots[q].path|, key)
    decreases DIGITS - |spots[q].path|
  {
    hide Digit, Find, LeafOk;
    assert NodeOk(hash, nodes, spots, q);
    if nodes[q].Inner? {
      var d := |spots[q].path|;
      var i := Digit(hash(key), d);
      assert ChildOk(nodes, spots, q, i);
      var child := nodes[q].children[i];
      if child != Empty {
        LookupBelow(hash, nodes, spots, nodes', p, gone, child.page, key);
      }
    }
  }
}
