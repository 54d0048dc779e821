/** Singly linked circular lists with a sentinel. A node and the structure that contains it
    are one object here, so an entry of a list is its node. */
module Slist {

  class Node {
    var next: Node?
    ghost var home: List?       // the work queue the node is in, if any

    constructor ()
      ensures next == null && home == null
    {
      next, home := null, null;
    }
  }

  ghost predicate Distinct(s: seq<Node>)
  {
    forall i, j | 0 <= i < j < |s| :: s[i] != s[j]
  }

  ghost predicate Apart(s: seq<Node>, t: seq<Node>)
  {
    forall i, j | 0 <= i < |s| && 0 <= j < |t| :: s[i] != t[j]
  }

  /** Every node but the last points to the one after it. */
  ghost predicate Linked(s: seq<Node>)
    reads s
  {
    forall i | 0 <= i < |s| - 1 :: s[i].next == s[i + 1]
  }

  class List {
    const first: Node           // the sentinel
    var last: Node
    ghost var s: seq<Node>      // the nodes of the list, without the sentinel

    /** The list is a chain of nodes, whatever the last of them points to. */
    ghost predicate Chained()
      reads this, first, s
    {
      && first !in s && Distinct(s)
      && last == (if s == [] then first else s[|s| - 1])
      && first.next == (if s == [] then first else s[0])
      && Linked(s)
    }

    ghost predicate Valid()
      reads this, first, s, last
    {
      Chained() && last.next == first
    }

    /** The nodes are lent to `to`, from which `k` nodes have been taken off since: all nodes
        are still linked, but what comes after the last of them is up to `to`, which had the
        nodes `before` when it borrowed and got the nodes `after` later. */
    ghost predicate Lent(to: List, k: nat, before: seq<Node>, after: seq<Node>)
      reads this, first, s, to, to.first, to.s, to.last
    {
      && s != [] && Chained() && to.Valid() && Separate(to, before)
      && Apart(s, after) && first !in after
      && k <= |before| + |s| && to.s == (before + s)[k..] + after
    }

    /** The list shares no node with another list that holds `t`. */
    ghost predicate Separate(to: List, t: seq<Node>)
      reads this
    {
      to != this && to.first != first && first !in t && to.first !in s && Apart(s, t)
    }

    /** No node of a list has a null pointer: the last one points to the sentinel. */
    lemma NoneNull()
      requires Valid()
      ensures forall n | n in s :: n.next != null
    {
      forall n | n in s
        ensures n.next != null
      {
        var i :| 0 <= i < |s| && s[i] == n;
        assert i < |s| - 1 ==> s[i].next == s[i + 1];
      }
    }

    constructor ()
      ensures Valid() && s == [] && last == first && fresh(first)
    {
      var sentinel := new Node();
      first := sentinel;
      last := sentinel;
      s := [];
      new;
      first.next := first;
    }

    method IsEmpty() returns (empty: bool)
      requires Chained()
      ensures empty <==> s == []
    {
      empty := first.next == first;
    }

    method InsertHead(node: Node)
      requires Valid() && node != first && node !in s
      modifies this`last, this`s, first`next, node`next
      ensures Valid() && s == [node] + old(s)
    {
      node.next := first.next;
      if last == first {
        last := node;
      }
      first.next := node;
      s := [node] + s;
    }

    method InsertTail(node: Node)
      requires Valid() && node != first && node !in s
      modifies this`last, this`s, last`next, node`next
      ensures Valid() && s == old(s) + [node] && last == node
    {
      node.next := first;
      last.next := node;
      last := node;
      s := s + [node];
    }

    /** Takes the first node off the list; the node itself is left as it is. */
    method PopHead() returns (node: Node)
      requires Valid() && s != []
      modifies this`last, this`s, first`next
      ensures Valid() && old(s) == [node] + s && node !in s
      ensures last == if s == [] then first else s[|s| - 1]
    {
      node := first.next;
      first.next := node.next;
      if last == node {
        last := first;
      }
      s := s[1..];
    }

    /** Appends the nodes of `from` to this list; they can still be reached from there. */
    method BorrowToTail(from: List)
      requires Valid() && from.Valid() && from.s != [] && from.Separate(this, s)
      modifies this`last, this`s, last`next, from.last`next
      ensures Valid() && s == old(s + from.s) && last == from.last == old(from.last)
      ensures from.s == old(from.s) && from.Lent(this, 0, old(s), [])
    {
      hide Lent;
      from.last.next := first;
      last.next := from.first.next;
      last := from.last;
      s := s + from.s;
      from.AllLent(this, old(s));
    }

    lemma AllLent(to: List, before: seq<Node>)
      requires s != [] && Chained() && to.Valid() && Separate(to, before) && to.s == before + s
      ensures Lent(to, 0, before, [])
    {
      assert to.s == (before + s)[0..] + [];
    }

    /** Appending to a list that has borrowed nodes leaves the loan in order. */
    method InsertTailLent(node: Node, lender: List, ghost k: nat, ghost before: seq<Node>, ghost after: seq<Node>)
      requires lender.Lent(this, k, before, after) && k < |before| + |lender.s|
      requires node !in before && node !in lender.s && node !in after && node != first && node != lender.first
      modifies this`last, this`s, last`next, node`next
      ensures lender.Lent(this, k, before, after + [node]) && lender.s == old(lender.s) && last == node
    {
      assert s[|before| + |lender.s| - k..] == after;
      InsertTail(node);
      assert s == (before + lender.s)[k..] + (after + [node]);
    }

    /** So does taking nodes off its front. */
    method PopHeadLent(lender: List, ghost k: nat, ghost before: seq<Node>, ghost after: seq<Node>)
      returns (node: Node)
      requires lender.Lent(this, k, before, after) && k + 1 < |before| + |lender.s|
      modifies this`last, this`s, first`next
      ensures lender.Lent(this, k + 1, before, after) && lender.s == old(lender.s)
      ensures node == (before + lender.s)[k] && last == old(last)
    {
      ghost var rest := (before + lender.s)[k + 1..] + after;
      assert s == [(before + lender.s)[k]] + rest;
      node := PopHead();
      assert s == old(s)[1..] == rest;
    }

    /** The later nodes follow the last of the nodes lent. */
    lemma LaterNodes(from: List, k: nat, before: seq<Node>, after: seq<Node>)
      requires Lent(from, k, before, after) && |before| <= k < |before| + |s|
      ensures s != [] && Chained() && from != this && from.first != first && from.first !in s && Apart(s, after)
      ensures from.first !in after && first !in after && Distinct(after) && Linked(after)
      ensures last.next == if after == [] then from.first else after[0]
      ensures after != [] ==> from.last == after[|after| - 1] && after[|after| - 1].next == from.first
    {
      var m := |before| + |s| - k;      // how many of the lent nodes are still at its head
      assert from.s[m - 1] == last;
      assert forall i | 0 <= i < |after| :: after[i] == from.s[m + i];
    }

    /** Takes back the nodes lent to `from`, some of which are at its head. */
    method GiveBackHead(from: List, ghost k: nat, ghost before: seq<Node>, ghost after: seq<Node>)
      requires Lent(from, k, before, after) && |before| <= k < |before| + |s|
      modifies last`next, from`last, from`s, from.first`next
      ensures Valid() && s == old(s)
      ensures from.Valid() && from.s == after
    {
      hide Lent;
      LaterNodes(from, k, before, after);
      from.first.next := last.next;
      if from.first.next == from.first {
        from.last := from.first;
      }
      last.next := first;
      from.s := after;
    }

    /** Moves all nodes of `from` to the end of this list. */
    method MoveToTail(from: List)
      requires Valid() && from.Valid() && from.s != [] && from.Separate(this, s)
      modifies this`last, this`s, last`next, from, from.last`next, from.first`next
      ensures Valid() && s == old(s + from.s)
      ensures from.Valid() && from.s == []
    {
      BorrowToTail(from);
      from.Reset();
    }

    /** Moves all nodes of `from` to the front of this list. */
    method MoveToHead(from: List)
      requires Valid() && from.Valid() && from.s != [] && from.Separate(this, s)
      modifies this`last, this`s, first`next, from, from.last`next, from.first`next
      ensures Valid() && s == old(from.s + s)
      ensures from.Valid() && from.s == []
    {
      from.last.next := first.next;
      first.next := from.first.next;
      if last == first {
        last := from.last;
      }
      s := from.s + s;
      from.Reset();
    }

    /** Makes the list empty, whatever state it is in. */
    method Reset()
      modifies this`last, this`s, first`next
      ensures Valid() && s == []
    {
      first.next := first;
      last := first;
      s := [];
    }
  }

  /** What may happen to a list between borrowing and giving back. */
  datatype Op = Append(node: Node) | Take

  /** The nodes the first `i` operations append. */
  ghost function Appended(ops: seq<Op>, i: nat): seq<Node>
    requires i <= |ops|
  {
    if i == 0 then []
    else Appended(ops, i - 1) + if ops[i - 1].Append? then [ops[i - 1].node] else []
  }

  /** How many nodes the first `i` operations take off. */
  ghost function Takes(ops: seq<Op>, i: nat): nat
    requires i <= |ops|
  {
    if i == 0 then 0 else Takes(ops, i - 1) + if ops[i - 1].Take? then 1 else 0
  }

  lemma {:induction false} Growing(ops: seq<Op>, i: nat, j: nat)
    requires i <= j <= |ops|
    ensures Takes(ops, i) <= Takes(ops, j)
    ensures Appended(ops, i) <= Appended(ops, j)
    decreases j
  {
    if i < j {
      Growing(ops, i, j - 1);
    }
  }

  ghost predicate AllIn(s: seq<Node>, nodes: set<Node>)
  {
    forall n | n in s :: n in nodes
  }

  lemma NewNode(ops: seq<Op>, i: nat, s: seq<Node>)
    requires i < |ops| && ops[i].Append? && Distinct(Appended(ops, |ops|)) && Apart(s, Appended(ops, |ops|))
    ensures ops[i].node !in s && ops[i].node !in Appended(ops, i) && ops[i].node in Appended(ops, |ops|)
  {
    Growing(ops, i + 1, |ops|);
    var n := |Appended(ops, i)|;
    assert Appended(ops, |ops|)[n] == ops[i].node;
    assert forall k | 0 <= k < n :: Appended(ops, |ops|)[k] == Appended(ops, i)[k];
  }

  lemma LastIn(l: List, nodes: set<Node>)
    requires l.Chained() && AllIn(l.s, nodes)
    ensures l.last == l.first || l.last in nodes
    ensures l.s != [] ==> l.last in nodes
  {
  }

  lemma Step(ops: seq<Op>, i: nat)
    requires i < |ops|
    ensures Takes(ops, i + 1) == Takes(ops, i) + if ops[i].Take? then 1 else 0
    ensures Appended(ops, i + 1) == Appended(ops, i) + if ops[i].Append? then [ops[i].node] else []
  {
  }

  lemma Start(ops: seq<Op>)
    ensures Takes(ops, 0) == 0 && Appended(ops, 0) == []
  {
  }

  lemma PrefixNext(s: seq<Node>, k: nat)
    requires k < |s|
    ensures s[..k + 1] == s[..k] + [s[k]]
  {
  }

  /** What `ops` may append: new nodes, each at most once. */
  ghost predicate Appendable(ops: seq<Op>, to: List, before: seq<Node>, from: List, lent: seq<Node>)
  {
    var nodes := Appended(ops, |ops|);
    Distinct(nodes) && Apart(before, nodes) && Apart(lent, nodes) && to.first !in nodes && from.first !in nodes
  }

  /** Nodes are appended to `to` and taken off it while it holds nodes lent by `from`. */
  method Use(to: List, from: List, ops: seq<Op>, ghost before: seq<Node>, ghost nodes: set<Node>)
    returns (taken: seq<Node>)
    requires to != from && from.Lent(to, 0, before, []) && Takes(ops, |ops|) < |before| + |from.s|
    requires Appendable(ops, to, before, from, from.s)
    requires to.first in nodes && to.last in nodes && AllIn(Appended(ops, |ops|), nodes)
    modifies to, nodes
    ensures from.Lent(to, Takes(ops, |ops|), before, Appended(ops, |ops|))
    ensures from.s == old(from.s) && from.last == old(from.last)
    ensures taken == (before + from.s)[..Takes(ops, |ops|)]
  {
    hide Takes;
    hide Appended;
    hide List.Lent;
    hide Apart;
    hide Distinct;
    ghost var all := before + from.s;
    taken := [];
    ghost var k, after := 0, [];
    Start(ops);
    var i := 0;
    while i < |ops|
      invariant 0 <= i <= |ops| && from.s == old(from.s) && from.last == old(from.last)
      invariant k == Takes(ops, i) && after == Appended(ops, i)
      invariant from.Lent(to, k, before, after)
      invariant k <= |all| && taken == all[..k]
      invariant to.last in nodes
    {
      Step(ops, i);
      Growing(ops, i + 1, |ops|);
      match ops[i] {
        case Append(node) =>
          NewNode(ops, i, before);
          NewNode(ops, i, from.s);
          to.InsertTailLent(node, from, k, before, after);
          after := after + [node];
        case Take =>
          var node := to.PopHeadLent(from, k, before, after);
          PrefixNext(all, k);
          taken, k := taken + [node], k + 1;
      }
      i := i + 1;
    }
  }

  /** The nodes of `from` are lent to `to`; nodes are appended to `to` and taken off it until
      some of those lent are at its head, and then given back. The lender gets back what it
      lent, in the same order, and the borrower keeps what was appended later. */
  method Lend(to: List, from: List, ops: seq<Op>, ghost nodes: set<Node>) returns (taken: seq<Node>)
    requires to.Valid() && from.Valid() && from.s != [] && from.Separate(to, to.s)
    requires |to.s| <= Takes(ops, |ops|) < |to.s| + |from.s|
    requires Appendable(ops, to, to.s, from, from.s)
    requires to.first in nodes && AllIn(to.s, nodes) && AllIn(from.s, nodes) && AllIn(Appended(ops, |ops|), nodes)
    modifies to, nodes
    ensures from.Valid() && from.s == old(from.s)
    ensures to.Valid() && to.s == Appended(ops, |ops|)
    ensures taken == old(to.s + from.s)[..Takes(ops, |ops|)]
  {
    hide List.Lent;
    ghost var before := to.s;
    LastIn(to, nodes);
    LastIn(from, nodes);
    to.BorrowToTail(from);
    taken := Use(to, from, ops, before, nodes);
    from.GiveBackHead(to, Takes(ops, |ops|), before, Appended(ops, |ops|));
  }
}
