/** Db::AvlTree: every node sits in a list and in an ordered tree, and knows its place in the list. */
module AvlTrees {
  import opened ByteStrings
  import opened Stores
  import Replies

  class Node {
    const internalKey: int
    const key: Bytes
    var value: Bytes
    var listIterator: ListPosition?

    constructor (internalKey: int, key: Bytes, value: Bytes)
      ensures this.internalKey == internalKey && this.key == key && this.value == value && listIterator == null
    {
      this.internalKey, this.key, this.value, listIterator := internalKey, key, value, null;
    }
  }

  /** A stable position of std::list: it stays the same object whatever else is inserted or erased. */
  class ListPosition {
    const node: Node

    constructor (node: Node)
      ensures this.node == node
    {
      this.node := node;
    }
  }

  // ---- What is assumed of boost::intrusive::avltree: a strictly ordered sequence of node references ----

  predicate Sorted(tree: seq<Node>) {
    forall i, j :: 0 <= i < j < |tree| ==> tree[i].internalKey < tree[j].internalKey
  }

  function TreeFind(tree: seq<Node>, key: int): (found: Option<Node>)
    ensures found.Some? ==> found.value in tree && found.value.internalKey == key
    ensures found.None? ==> forall n :: n in tree ==> n.internalKey != key
  {
    if tree == [] then None
    else if tree[0].internalKey == key then Some(tree[0])
    else TreeFind(tree[1..], key)
  }

  function InsertUnique(tree: seq<Node>, node: Node): (r: seq<Node>)
    requires Sorted(tree) && forall n :: n in tree ==> n.internalKey != node.internalKey
    ensures Sorted(r)
    ensures node in r && (forall n :: n in tree ==> n in r) && forall n :: n in r ==> n == node || n in tree
  {
    if tree == [] || node.internalKey < tree[0].internalKey then
      [node] + tree
    else
      var r := InsertUnique(tree[1..], node);
      assert forall i :: 0 <= i < |r| ==> r[i] in r;
      [tree[0]] + r
  }

  function EraseNode(tree: seq<Node>, node: Node): (r: seq<Node>)
    requires Sorted(tree)
    ensures Sorted(r)
    ensures (forall n :: n in r ==> n in tree && n != node) && forall n :: n in tree && n != node ==> n in r
  {
    if tree == [] then []
    else if tree[0] == node then
      assert forall i :: 1 <= i < |tree| ==> tree[i] != node;
      tree[1..]
    else
      var r := EraseNode(tree[1..], node);
      assert forall i :: 0 <= i < |r| ==> r[i] in r;
      [tree[0]] + r
  }

  class AvlTree {
    const hash: Hash
    const compile: Bytes -> Option<Callback>  // JsVm: None when the script does not compile or run

    var nodes: seq<ListPosition>
    var tree: seq<Node>

    ghost var contents: Entries
    ghost var Repr: set<object>

    /** Both structures hold the same nodes, each node's iterator is its own list position, the
        internal key is the hash of the key, and no two nodes share one. */
    ghost predicate Valid()
      reads this, Repr
      ensures Valid() ==> this in Repr
    {
      && this in Repr
      && |contents| == |nodes|
      && (forall i :: 0 <= i < |nodes| ==>
            && nodes[i].node in Repr
            && nodes[i].node.listIterator == nodes[i]
            && contents[i] == Entry(nodes[i].node.internalKey, nodes[i].node.key, nodes[i].node.value))
      && Distinct(contents) && Keyed(hash, contents)
      && Sorted(tree)
      && (forall n :: n in tree ==> n in Repr && n.listIterator in nodes && n.listIterator.node == n)
      && (forall p :: p in nodes ==> p.node in tree)
    }

    constructor (hash: Hash, compile: Bytes -> Option<Callback>)
      ensures Valid() && fresh(Repr) && contents == []
      ensures this.hash == hash && this.compile == compile
    {
      this.hash, this.compile := hash, compile;
      nodes, tree := [], [];
      contents, Repr := [], {this};
    }

    /** The tree search finds the entry the list has under that hash. */
    lemma FoundAt(h: int) returns (i: nat)
      requires Valid()
      ensures i == IndexOf(contents, h)
      ensures TreeFind(tree, h).None? <==> i == |contents|
      ensures TreeFind(tree, h).Some? ==> i < |nodes| && nodes[i].node == TreeFind(tree, h).value
                                          && nodes[i] == TreeFind(tree, h).value.listIterator
    {
      i := IndexOf(contents, h);
      match TreeFind(tree, h)
      case Some(n) =>
        var k :| 0 <= k < |nodes| && nodes[k] == n.listIterator;
        IndexIs(contents, h, k);
      case None =>
        forall k | 0 <= k < |nodes| ensures contents[k].internalKey != h {
          assert nodes[k] in nodes;
        }
    }

    /** No two list positions hold the same node. */
    lemma Unshared(i: nat)
      requires Valid() && i < |nodes|
      ensures forall k :: 0 <= k < |nodes| && k != i ==> nodes[k].node != nodes[i].node
    {
      hide Sorted, Keyed;
      forall k | 0 <= k < |nodes| && k != i ensures nodes[k].node != nodes[i].node {
        assert contents[k].internalKey != contents[i].internalKey;
      }
    }

    method Get(arguments: seq<Bytes>) returns (reply: Bytes)
      requires Valid() && |arguments| >= 2
      ensures reply == TreeApply(hash, contents, Op.Get(arguments[1])).reply
      ensures TreeApply(hash, contents, Op.Get(arguments[1])).store == contents
    {
      var h := hash(arguments[1]);
      ghost var i := FoundAt(h);
      var found := TreeFind(tree, h);
      if found.None? {
        return Replies.NIL;
      }
      return Replies.ToReplyString(found.value.value);
    }

    method Set(arguments: seq<Bytes>) returns (reply: Bytes)
      requires Valid() && |arguments| >= 3
      modifies Repr
      ensures Valid() && fresh(Repr - old(Repr))
      ensures Outcome(contents, reply) == TreeApply(hash, old(contents), Op.Set(arguments[1], arguments[2]))
      ensures old(nodes) <= nodes
    {
      var h := hash(arguments[1]);
      ghost var i := FoundAt(h);
      var found := TreeFind(tree, h);
      if found.Some? {
        Unshared(i);
        contents := contents[i := contents[i].(value := arguments[2])];
        found.value.value := arguments[2];
        return Replies.OK;
      }
      PushNode(arguments[1], arguments[2]);
      return Replies.OK;
    }

    /** The second half of set, for a key whose hash is new. */
    method PushNode(key: Bytes, value: Bytes)
      requires Valid() && IndexOf(contents, hash(key)) == |contents|
      requires forall n :: n in tree ==> n.internalKey != hash(key)
      modifies this
      ensures Valid() && fresh(Repr - old(Repr)) && old(Repr) <= Repr
      ensures contents == old(contents) + [Entry(hash(key), key, value)]
      ensures old(nodes) <= nodes
    {
      hide IndexOf, TreeFind, InsertUnique;
      var node := new Node(hash(key), key, value);
      var position := new ListPosition(node);
      nodes := nodes + [position];
      node.listIterator := position;
      tree := InsertUnique(tree, node);
      contents := contents + [Entry(hash(key), key, value)];
      Repr := Repr + {node};
    }

    method Del(arguments: seq<Bytes>) returns (reply: Bytes)
      requires Valid() && |arguments| >= 2
      modifies Repr
      ensures Valid() && fresh(Repr - old(Repr))
      ensures Outcome(contents, reply) == TreeApply(hash, old(contents), Op.Del(arguments[1]))
      // an erased node is in neither structure, and nothing else is erased
      ensures forall p :: p in old(nodes) && p !in nodes ==> p.node !in tree && p.node.internalKey == hash(arguments[1])
      ensures forall p :: p in old(nodes) && p.node.internalKey != hash(arguments[1]) ==> p in nodes && p.node in tree
    {
      hide IndexOf, TreeFind, EraseNode;
      var h := hash(arguments[1]);
      ghost var i := FoundAt(h);
      var found := TreeFind(tree, h);
      if found.None? {
        return Replies.FALSE;
      }
      EraseAndDispose(found.value, i);
      return Replies.TRUE;
    }

    /** erase_and_dispose: out of the tree, and then out of the list. */
    method EraseAndDispose(node: Node, ghost i: nat)
      requires Valid() && i < |nodes| && nodes[i] == node.listIterator && nodes[i].node == node
      modifies this
      ensures Valid() && Repr == old(Repr)
      ensures nodes == Without(old(nodes), i) && contents == Without(old(contents), i)
      ensures node !in tree && forall n :: n in old(tree) && n != node ==> n in tree
    {
      hide EraseNode;
      PositionsDiffer();
      tree := EraseNode(tree, node);
      DisposeNode(node, i);
      ElementsWithout(old(nodes), i);
      ElementsWithout(old(contents), i);
    }

    /** No position is in the list twice. */
    lemma PositionsDiffer()
      requires Valid()
      ensures forall j, k :: 0 <= j < k < |nodes| ==> nodes[j] != nodes[k]
    {
      forall j, k | 0 <= j < k < |nodes| ensures nodes[j] != nodes[k] {
        assert contents[j].internalKey != contents[k].internalKey;
      }
    }

    /** The disposer handed to erase_and_dispose: the node's own position is erased from the list. */
    method DisposeNode(node: Node, ghost i: nat)
      requires i < |nodes| == |contents| && node.listIterator == nodes[i]
      requires forall j, k :: 0 <= j < k < |nodes| ==> nodes[j] != nodes[k]
      modifies this
      ensures nodes == Without(old(nodes), i) && contents == Without(old(contents), i)
      ensures tree == old(tree) && Repr == old(Repr)
    {
      var at := 0;
      while nodes[at] != node.listIterator
        invariant at <= i
        decreases i - at
      {
        at := at + 1;
      }
      nodes := nodes[..at] + nodes[at + 1..];
      contents := Without(contents, i);
    }

    method ForEach(arguments: seq<Bytes>) returns (reply: Bytes)
      requires Valid() && |arguments| >= 2
      modifies Repr
      ensures Valid() && fresh(Repr - old(Repr))
      ensures Outcome(contents, reply) == TreeApply(hash, old(contents), Op.ForEach(compile(arguments[1])))
      ensures nodes == old(nodes) && tree == old(tree)
    {
      hide FirstFailure, IndexOf, TreeFind, RenewedUpTo, Sorted, Distinct, Keyed;
      var vm := compile(arguments[1]);
      if vm.None? {
        return Replies.ERROR;
      }
      ghost var before := contents;
      var i := 0;
      while i < |nodes|
        invariant i <= |nodes|
        invariant Valid() && Repr == old(Repr) && nodes == old(nodes) && tree == old(tree)
        invariant forall k :: 0 <= k < i ==> vm.value(before[k].key, before[k].value).Some?
        invariant |contents| == |before| && contents == RenewedUpTo(before, vm.value, i)
      {
        var node := nodes[i].node;
        var renewed := vm.value(node.key, node.value);
        if renewed.None? {
          FailsAt(before, vm.value, i);
          return Replies.ERROR;
        }
        RenewNext(before, vm.value, i);
        Unshared(i);
        NewValue(hash, contents, i, renewed.value);
        contents := contents[i := contents[i].(value := renewed.value)];
        node.value := renewed.value;
        i := i + 1;
      }
      FailsAt(before, vm.value, i);
      return Replies.TRUE;
    }
  }

  lemma NewValue(hash: Hash, es: Entries, i: nat, value: Bytes)
    requires i < |es| && Distinct(es) && Keyed(hash, es)
    ensures Distinct(es[i := es[i].(value := value)]) && Keyed(hash, es[i := es[i].(value := value)])
  {}

  /** One turn of the foreach loop. */
  lemma RenewNext(es: Entries, f: Callback, i: nat)
    requires i < |es| && f(es[i].key, es[i].value).Some?
    ensures RenewedUpTo(es, f, i)[i] == es[i]
    ensures RenewedUpTo(es, f, i + 1) == RenewedUpTo(es, f, i)[i := es[i].(value := f(es[i].key, es[i].value).value)]
  {}

  lemma ElementsWithout<T>(s: seq<T>, i: nat)
    requires i < |s|
    ensures forall j :: 0 <= j < |s| - 1 ==> Without(s, i)[j] == s[if j < i then j else j + 1]
    ensures forall x :: x in Without(s, i) ==> x in s
    ensures forall x :: x in s && x != s[i] ==> x in Without(s, i)
  {
    forall x | x in s && x != s[i] ensures x in Without(s, i) {
      var k :| 0 <= k < |s| && s[k] == x;
      assert Without(s, i)[if k < i then k else k - 1] == x;
    }
  }

  lemma FailsAt(es: Entries, f: Callback, p: nat)
    requires p <= |es| && forall k :: 0 <= k < p ==> f(es[k].key, es[k].value).Some?
    requires p < |es| ==> f(es[p].key, es[p].value).None?
    ensures FirstFailure(es, f, 0) == p
  {}
}
