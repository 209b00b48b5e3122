/** Least-recently-used replacement: a doubly linked list with a hash map into it. */
module Replacer {
  import opened Basics

  function Without(s: seq<int>, val: int): seq<int> {
    if s == [] then []
    else if s[0] == val then Without(s[1..], val)
    else [s[0]] + Without(s[1..], val)
  }

  lemma InsertedAbsent(s: seq<int>, val: int)
    requires val !in s
    ensures Inserted(s, val) == [val] + s && Without(s, val) == s
  {
    WithoutAbsent(s, val);
  }

  lemma {:induction false} WithoutAbsent(s: seq<int>, val: int)
    requires val !in s
    ensures Without(s, val) == s
  {
    if s == [] {
    } else {
      WithoutAbsent(s[1..], val);
    }
  }

  /** In a duplicate-free sequence, Without cuts out the one position that holds `val`. */
  lemma {:induction false} WithoutAt(s: seq<int>, k: nat)
    requires Distinct(s) && k < |s|
    ensures Without(s, s[k]) == Cut(s, k)
  {
    if k == 0 {
      WithoutAbsent(s[1..], s[0]);
    } else {
      WithoutAt(s[1..], k - 1);
      assert s[1..][..k - 1] == s[1..k];
      assert s[1..][k..] == s[k + 1..];
      assert s[..k] == [s[0]] + s[1..k];
    }
  }

  lemma {:induction false} WithoutMembers(s: seq<int>, val: int, x: int)
    ensures x in Without(s, val) <==> x in s && x != val
  {
    if s == [] {
    } else {
      WithoutMembers(s[1..], val, x);
      assert s == [s[0]] + s[1..];
    }
  }

  /** What insert does to the recency order: `val` becomes the most recent, once. */
  function Inserted(s: seq<int>, val: int): seq<int> {
    [val] + Without(s, val)
  }

  class Node {
    const val: int
    var next: Node?
    var prev: Node?

    constructor (val: int)
      ensures this.val == val && next == null && prev == null
    {
      this.val := val;
      next := null;
      prev := null;
    }
  }

  /** Linked both ways, except that nothing is said of `head.prev`: a node moved to the front
      keeps the predecessor it had. */
  ghost predicate Linked(nodes: seq<Node>, head: Node?, tail: Node?)
    reads nodes
  {
    && Distinct(nodes)
    && (if nodes == [] then head == null && tail == null
        else head == nodes[0] && tail == nodes[|nodes| - 1] && tail.next == null)
    && (forall i {:trigger nodes[i].next} :: 0 <= i < |nodes| - 1 ==> nodes[i].next == nodes[i + 1])
    && (forall i {:trigger nodes[i].prev} :: 1 <= i < |nodes| ==> nodes[i].prev == nodes[i - 1])
  }

  function Values(nodes: seq<Node>): (s: seq<int>)
    ensures |s| == |nodes| && forall i :: 0 <= i < |s| ==> s[i] == nodes[i].val
  {
    seq(|nodes|, i requires 0 <= i < |nodes| => nodes[i].val)
  }

  /** The map knows exactly the nodes of the list, under their values. */
  ghost predicate Indexed(index: map<int, Node>, nodes: seq<Node>) {
    && Distinct(Values(nodes))
    && (forall i :: 0 <= i < |nodes| ==> nodes[i].val in index && index[nodes[i].val] == nodes[i])
    && (forall v :: v in index ==> index[v] in nodes && index[v].val == v)
  }

  lemma IndexedPush(index: map<int, Node>, nodes: seq<Node>, node: Node)
    requires Indexed(index, nodes) && node.val !in index
    ensures Indexed(index[node.val := node], [node] + nodes)
    ensures node !in nodes && Values([node] + nodes) == [node.val] + Values(nodes)
  {
    var all := [node] + nodes;
    ValuesPush(nodes, node);
    assert forall n :: n in nodes ==> n in all;
    forall i | 0 <= i < |all| ensures all[i].val in index[node.val := node] && index[node.val := node][all[i].val] == all[i] {
      if i > 0 {
        assert all[i] == nodes[i - 1];
      }
    }
    hide Values;
    assert forall v :: v in index ==> index[v] in all && index[v].val == v;
  }

  lemma ValuesPush(nodes: seq<Node>, node: Node)
    requires Distinct(Values(nodes)) && forall i :: 0 <= i < |nodes| ==> nodes[i].val != node.val
    ensures node !in nodes && Values([node] + nodes) == [node.val] + Values(nodes)
    ensures Distinct(Values([node] + nodes))
  {
    var all := [node] + nodes;
    assert forall i :: 1 <= i < |all| ==> all[i] == nodes[i - 1];
    assert Values(all) == [node.val] + Values(nodes);
  }

  lemma ValuesCut(nodes: seq<Node>, k: nat)
    requires k < |nodes| && Distinct(Values(nodes))
    ensures Values(Cut(nodes, k)) == Cut(Values(nodes), k) == Without(Values(nodes), nodes[k].val)
    ensures Distinct(Values(Cut(nodes, k)))
  {
    WithoutAt(Values(nodes), k);
    assert Values(Cut(nodes, k)) == Cut(Values(nodes), k);
  }

  lemma CutKeeps(nodes: seq<Node>, k: nat, n: Node)
    requires k < |nodes| && n in nodes && n != nodes[k]
    ensures n in Cut(nodes, k)
  {
    var i :| 0 <= i < |nodes| && nodes[i] == n;
    assert n == Cut(nodes, k)[if i < k then i else i - 1];
  }

  lemma IndexedCut(index: map<int, Node>, nodes: seq<Node>, k: nat)
    requires Indexed(index, nodes) && k < |nodes|
    ensures Indexed(index - {nodes[k].val}, Cut(nodes, k))
    ensures Values(Cut(nodes, k)) == Without(Values(nodes), nodes[k].val)
    ensures index[nodes[k].val] == nodes[k]
  {
    hide Without;
    ValuesCut(nodes, k);
    IndexStaysOn(index, nodes, k);
    CutStaysIndexed(index, nodes, k);
  }

  lemma IndexStaysOn(index: map<int, Node>, nodes: seq<Node>, k: nat)
    requires Indexed(index, nodes) && k < |nodes|
    ensures forall v :: v in index - {nodes[k].val} ==> index[v] in Cut(nodes, k) && index[v].val == v
  {
    hide Cut, Values;
    forall v | v in index - {nodes[k].val} ensures index[v] in Cut(nodes, k) {
      CutKeeps(nodes, k, index[v]);
    }
  }

  lemma CutStaysIndexed(index: map<int, Node>, nodes: seq<Node>, k: nat)
    requires Indexed(index, nodes) && k < |nodes|
    ensures var rest := Cut(nodes, k);
      forall i :: 0 <= i < |rest| ==> rest[i].val in index - {nodes[k].val} && index[rest[i].val] == rest[i]
  {
    var rest := Cut(nodes, k);
    forall i | 0 <= i < |rest| ensures rest[i].val in index - {nodes[k].val} && index[rest[i].val] == rest[i] {
      var j := if i < k then i else i + 1;
      assert rest[i] == nodes[j];
      assert Values(nodes)[j] != Values(nodes)[k];
    }
  }

  class LruReplacer {
    var head: Node?
    var tail: Node?
    var size: nat
    var index: map<int, Node>
    ghost var nodes: seq<Node>       // from the most to the least recently inserted

    ghost var Repr: set<object>

    ghost predicate Valid()
      reads this, Repr
      ensures Valid() ==> this in Repr
    {
      && this in Repr && (forall n :: n in nodes ==> n in Repr)
      && Linked(nodes, head, tail) && Indexed(index, nodes) && size == |nodes|
    }

    /** The recency order, most recent first. */
    ghost function Contents(): seq<int>
      reads this
    {
      Values(nodes)
    }

    constructor ()
      ensures Valid() && fresh(Repr) && Contents() == []
    {
      head, tail, size, index := null, null, 0, map[];
      nodes, Repr := [], {this};
    }

    predicate Contains(val: int)
      requires Valid()
      reads this, Repr
      ensures Contains(val) <==> val in Contents()
    {
      assert val in index ==> index[val] in nodes;
      val in index
    }

    /** Links a node that is not in the list in front of it. */
    method PushFront(node: Node)
      requires Linked(nodes, head, tail) && node !in nodes && (nodes == [] ==> node.next == null)
      modifies this`head, this`tail, this`nodes, nodes, node
      ensures nodes == [node] + old(nodes) && Linked(nodes, head, tail)
    {
      if head == null {
        head := node;
        tail := node;
      } else {
        node.next := head;
        head.prev := node;
        head := node;
      }
      nodes := [node] + nodes;
    }

    /** Takes the node at position `k` out of the list; the map still knows it. */
    method Unlink(node: Node, ghost k: nat)
      requires Linked(nodes, head, tail) && k < |nodes| && nodes[k] == node
      modifies this`head, this`tail, this`nodes, nodes
      ensures nodes == Cut(old(nodes), k) && Linked(nodes, head, tail)
      ensures k == 0 && head != null ==> head.prev == null
    {
      if node == head && node == tail {
        head := null;
        tail := null;
      } else if node == head {
        head := node.next;
        head.prev := null;
      } else if node == tail {
        tail := node.prev;
        tail.next := null;
      } else {
        node.prev.next := node.next;
        node.next.prev := node.prev;
      }
      ghost var list := nodes;
      nodes := Cut(nodes, k);
      forall i | 0 <= i < |nodes| - 1 ensures nodes[i].next == nodes[i + 1] {
        assert nodes[i] == list[if i < k then i else i + 1];
        assert nodes[i + 1] == list[if i + 1 < k then i + 1 else i + 2];
      }
      forall i | 1 <= i < |nodes| ensures nodes[i].prev == nodes[i - 1] {
        assert nodes[i] == list[if i < k then i else i + 1];
        assert nodes[i - 1] == list[if i - 1 < k then i - 1 else i];
      }
    }

    /** `val` becomes the most recent value, whether or not it was in the list. */
    method Insert(val: int)
      requires Valid()
      modifies Repr
      ensures Valid() && fresh(Repr - old(Repr)) && Contents() == Inserted(old(Contents()), val)
    {
      hide Linked, Indexed, Without;
      AbsentFromIndex(val);
      if val !in index {
        var node := new Node(val);
        IndexedPush(index, nodes, node);
        index := index[val := node];
        PushFront(node);
        Repr := Repr + {node};
        size := size + 1;
        return;
      }
      MoveToFront(val);
    }

    method MoveToFront(val: int)
      requires Valid() && val in index
      modifies Repr
      ensures Valid() && Repr == old(Repr) && Contents() == Inserted(old(Contents()), val)
    {
      hide Linked, Indexed, Without, Values;
      var node := index[val];
      ghost var k := Position(val);
      if node == head {
        AlreadyFirst(k);
        return;
      }
      NotOnly(k);
      IndexedCut(index, nodes, k);
      Unlink(node, k);
      IndexedPush(index - {val}, nodes, node);
      assert (index - {val})[val := node] == index;
      PushFront(node);
    }

    method Remove(val: int) returns (found: bool)
      requires Valid()
      modifies Repr
      ensures Valid() && Repr == old(Repr) && found == (val in old(Contents()))
      ensures Contents() == Without(old(Contents()), val)
    {
      hide Linked, Indexed, Without;
      AbsentFromIndex(val);
      if val !in index {
        return false;
      }
      var node := index[val];
      ghost var k := Position(val);
      IndexedCut(index, nodes, k);
      Unlink(node, k);
      index := index - {val};
      size := size - 1;
      return true;
    }

    /** Takes out the least recently inserted value; -1 when there is none. */
    method Evict() returns (val: int)
      requires Valid()
      modifies Repr
      ensures Valid() && Repr == old(Repr)
      ensures old(Contents()) == [] ==> val == -1 && Contents() == []
      ensures old(Contents()) != [] ==> old(Contents()) == Contents() + [val]
    {
      if head == null {
        return -1;
      }
      val := tail.val;
      WithoutAt(Contents(), |nodes| - 1);
      var _ := Remove(val);
    }

    lemma Position(val: int) returns (k: nat)
      requires Valid() && val in index
      ensures k < |nodes| && nodes[k] == index[val] && nodes[k].val == val
    {
      k :| 0 <= k < |nodes| && nodes[k] == index[val];
    }

    lemma AbsentFromIndex(val: int)
      requires Valid()
      ensures val in index <==> val in Contents()
      ensures val !in index ==> Without(Contents(), val) == Contents()
    {
      if val in index {
        var k := Position(val);
        assert Contents()[k] == val;
      } else {
        WithoutAbsent(Contents(), val);
      }
    }

    lemma AlreadyFirst(k: nat)
      requires Valid() && k < |nodes| && nodes[k] == head
      ensures Contents() == Inserted(Contents(), nodes[k].val)
    {
      assert k == 0;
      WithoutAt(Contents(), k);
    }

    lemma NotOnly(k: nat)
      requires Valid() && k < |nodes| && nodes[k] != head
      ensures |nodes| > 1
    {
    }
  }

  /** Both lists, the important values first; each from the most to the least recently inserted. */
  datatype Lists = Lists(important: seq<int>, unimportant: seq<int>)

  /** The value given up is the least recent unimportant one if there is one, else the least recent important one. */
  ghost predicate GivesUp(before: Lists, after: Lists, val: int) {
    if before.unimportant != [] then
      before.unimportant == after.unimportant + [val] && after.important == before.important
    else
      before.important == after.important + [val] && after.unimportant == []
  }

  /** Two priorities: values that ought to be evicted early, and the rest. */
  class DualPriorityReplacer {
    const important: LruReplacer
    const unimportant: LruReplacer
    ghost var members: set<int>      // the values of both lists
    ghost var Repr: set<object>

    ghost predicate Valid()
      reads this, Repr
      ensures Valid() ==> this in Repr
    {
      && this in Repr && important in Repr && unimportant in Repr
      && important != unimportant
      && important.Repr <= Repr && unimportant.Repr <= Repr && important.Repr !! unimportant.Repr
      && this !in important.Repr && this !in unimportant.Repr
      && important.Valid() && unimportant.Valid()
      && (forall v :: v in important.Contents() ==> v !in unimportant.Contents())
      && (forall v :: v in members <==> v in important.Contents() || v in unimportant.Contents())
    }

    ghost function Order(): Lists
      reads important, unimportant
    {
      Lists(important.Contents(), unimportant.Contents())
    }

    constructor ()
      ensures Valid() && fresh(Repr)
      ensures important.Contents() == [] && unimportant.Contents() == [] && members == {}
    {
      important := new LruReplacer();
      unimportant := new LruReplacer();
      new;
      Repr := {this} + important.Repr + unimportant.Repr;
      members := {};
    }

    method Insert(val: int, adviseEviction: bool)
      requires Valid()
      modifies Repr
      ensures Valid() && fresh(Repr - old(Repr))
      ensures important.Contents() ==
              if adviseEviction then old(important.Contents()) else Inserted(old(important.Contents()), val)
      ensures unimportant.Contents() ==
              if !adviseEviction then Without(old(unimportant.Contents()), val)
              else if val in old(important.Contents()) then old(unimportant.Contents())
              else Inserted(old(unimportant.Contents()), val)
      ensures members == old(members) + {val}
    {
      hide Linked, Indexed, Without, Inserted, LruReplacer.Contents;
      InsertedMembers(important.Contents(), val);
      InsertedMembers(unimportant.Contents(), val);
      WithoutAll(unimportant.Contents(), val);
      if adviseEviction {
        if !important.Contains(val) {
          unimportant.Insert(val);
          Repr := Repr + unimportant.Repr;
        }
      } else {
        important.Insert(val);
        var _ := unimportant.Remove(val);
        Repr := Repr + important.Repr;
      }
      members := members + {val};
    }

    /** `val` is in at most one list, so stopping at the first hit leaves it in neither. */
    method Remove(val: int) returns (found: bool)
      requires Valid()
      modifies Repr
      ensures Valid() && Repr == old(Repr)
      ensures found == (val in old(members))
      ensures important.Contents() == Without(old(important.Contents()), val)
      ensures unimportant.Contents() == Without(old(unimportant.Contents()), val)
      ensures members == old(members) - {val}
    {
      hide Linked, Indexed, Without, LruReplacer.Contents;
      WithoutAll(important.Contents(), val);
      WithoutAll(unimportant.Contents(), val);
      found := unimportant.Remove(val);
      if found {
        WithoutAbsent(important.Contents(), val);
      } else {
        found := important.Remove(val);
      }
      members := members - {val};
    }

    /** The least recent unimportant value if there is one, else the least recent important one. */
    method Evict() returns (val: int)
      requires Valid() && -1 !in members
      modifies Repr
      ensures Valid() && Repr == old(Repr)
      ensures old(unimportant.Contents()) != [] ==>
                old(unimportant.Contents()) == unimportant.Contents() + [val]
                && important.Contents() == old(important.Contents())
      ensures old(unimportant.Contents()) == [] && old(important.Contents()) != [] ==>
                unimportant.Contents() == [] && old(important.Contents()) == important.Contents() + [val]
      ensures val != -1 ==> val in old(members) && GivesUp(old(Order()), Order(), val)
      ensures val == -1 ==> Order() == old(Order())
      ensures val == -1 <==> old(members) == {}
      ensures members == old(members) - {val}
    {
      hide Linked, Indexed, LruReplacer.Contents;
      DistinctContents(unimportant);
      DistinctContents(important);
      ghost var unimp, imp := unimportant.Contents(), important.Contents();
      val := unimportant.Evict();
      if unimp != [] {
        LastOut(unimp, unimportant.Contents(), val);
      }
      if val != -1 {
        members := members - {val};
        return;
      }
      val := important.Evict();
      if imp != [] {
        LastOut(imp, important.Contents(), val);
      } else {
        assert forall v :: v !in members;
      }
      members := members - {val};
    }
  }

  lemma DistinctContents(r: LruReplacer)
    requires r.Valid()
    ensures Distinct(r.Contents())
  {
  }

  lemma InsertedMembers(s: seq<int>, val: int)
    ensures forall x :: x in Inserted(s, val) <==> x in s || x == val
  {
    WithoutAll(s, val);
  }

  lemma WithoutAll(s: seq<int>, val: int)
    ensures forall x :: x in Without(s, val) <==> x in s && x != val
  {
    forall x ensures x in Without(s, val) <==> x in s && x != val {
      WithoutMembers(s, val, x);
    }
  }

  lemma LastOut(s: seq<int>, t: seq<int>, val: int)
    requires Distinct(s) && s == t + [val]
    ensures forall x :: x in t <==> x in s && x != val
    ensures val in s
  {
    assert s[|s| - 1] == val;
    assert forall i :: 0 <= i < |t| ==> t[i] == s[i];
  }
}
