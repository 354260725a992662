/** The tail queues of stack_and_service/porting/app_glue.c on pointers: insertion at the tail and
    removal, and what a removal does to a queue its element has already left. */
module Tailq {

  /** tqe_next, and the element whose tqe_next the field tqe_prev points to: null is the head. */
  class Node {
    var next: Node?
    var prev: Node?

    constructor ()
    {
      next, prev := null, null;
    }
  }

  /** What stands before and after the k-th gap between some nodes. */
  function Before(ns: seq<Node>, k: nat): Node?
    requires k <= |ns|
  {
    if k == 0 then null else ns[k - 1]
  }

  function After(ns: seq<Node>, k: nat): Node?
    requires k <= |ns|
  {
    if k == |ns| then null else ns[k]
  }

  ghost predicate Distinct(ns: seq<Node>) {
    forall i, j :: 0 <= i < j < |ns| ==> ns[i] != ns[j]
  }

  function Except(ns: seq<Node>, k: nat): seq<Node>
    requires k < |ns|
  {
    ns[..k] + ns[k + 1..]
  }

  lemma OnlyAt(ns: seq<Node>, k: nat)
    requires Distinct(ns) && k < |ns|
    ensures forall i :: 0 <= i < |ns| && i != k ==> ns[i] != ns[k]
    ensures Distinct(Except(ns, k))
  {
  }

  lemma ExceptAt(ns: seq<Node>, k: nat)
    requires k < |ns|
    ensures |Except(ns, k)| == |ns| - 1
    ensures forall i :: 0 <= i < |ns| - 1 ==> Except(ns, k)[i] == ns[if i < k then i else i + 1]
    ensures forall i :: 0 <= i < |ns| ==> Before(Except(ns, k), i) == Before(ns, if i <= k then i else i + 1)
    ensures forall i :: 0 <= i < |ns| ==> After(Except(ns, k), i) == After(ns, if i < k then i else i + 1)
  {
  }

  lemma AtTail(ns: seq<Node>, e: Node)
    requires e !in ns && Distinct(ns)
    ensures Distinct(ns + [e]) && Before(ns + [e], |ns| + 1) == e
    ensures forall i :: 0 <= i <= |ns| ==> Before(ns + [e], i) == Before(ns, i)
  {
  }

  /** Two elements, or the end of the queue where null, are next to each other. */
  ghost predicate Adjacent(ns: seq<Node>, prev: Node?, next: Node?) {
    exists k :: 0 <= k <= |ns| && prev == Before(ns, k) && next == After(ns, k)
  }

  ghost predicate BothGone(ns: seq<Node>, prev: Node?, next: Node?) {
    prev != null && prev !in ns && next != null && next !in ns
  }

  /** tqh_first, and the element whose tqe_next the field tqh_last points to: null is the head. */
  class Head {
    var first: Node?
    var last: Node?
    ghost var nodes: seq<Node>

    ghost predicate Forward(ns: seq<Node>)
      reads `first, ns`next
    {
      first == After(ns, 0) && forall i :: 0 <= i < |ns| ==> ns[i].next == After(ns, i + 1)
    }

    ghost predicate Backward(ns: seq<Node>)
      reads `last, ns`prev
    {
      last == Before(ns, |ns|) && forall i :: 0 <= i < |ns| ==> ns[i].prev == Before(ns, i)
    }

    ghost predicate Valid()
      reads this, nodes
    {
      Distinct(nodes) && Forward(nodes) && Backward(nodes)
    }

    constructor ()
      ensures Valid() && nodes == []
    {
      first, last := null, null;
      nodes := [];
    }

    /** TAILQ_INSERT_TAIL */
    method InsertTail(e: Node)
      requires Valid() && e !in nodes
      modifies this, nodes, e
      ensures Valid() && nodes == old(nodes) + [e]
    {
      ghost var more := nodes + [e];
      hide Before, After, Forward;
      AtTail(nodes, e);
      e.next := null;
      e.prev := last;
      LinkLast(e);
      hide Distinct;
      last := e;
      assert Backward(more);
      Become(more);
    }

    ghost method Become(ns: seq<Node>)
      requires Distinct(ns) && Forward(ns) && Backward(ns)
      modifies `nodes
      ensures Valid() && nodes == ns
    {
      nodes := ns;
    }

    /** *tqh_last = e */
    method LinkLast(e: Node)
      requires Distinct(nodes) && Forward(nodes) && e !in nodes && e.next == null && last == Before(nodes, |nodes|)
      modifies `first, nodes`next
      ensures Forward(nodes + [e])
    {
      if nodes != [] { OnlyAt(nodes, |nodes| - 1); }
      hide Distinct;
      if last == null { first := e; } else { last.next := e; }
      assert forall i :: 0 <= i < |nodes| - 1 ==> nodes[i].next == nodes[i + 1];
    }

    // ----- The two halves of TAILQ_REMOVE, whatever the state of the queue -----

    method UnlinkBack(e: Node)
      modifies `last, (if e.next == null then {} else {e.next})`prev
      ensures if e.next == null then last == old(e.prev) else last == old(last) && e.next.prev == old(e.prev)
    {
      if e.next != null { e.next.prev := e.prev; } else { last := e.prev; }
    }

    method UnlinkForth(e: Node)
      modifies `first, (if e.prev == null then {} else {e.prev})`next
      ensures if e.prev == null then first == old(e.next) else first == old(first) && e.prev.next == old(e.next)
    {
      if e.prev == null { first := e.next; } else { e.prev.next := e.next; }
    }

    /** TAILQ_REMOVE of an element of the queue, which keeps the pointers it had. */
    method Remove(e: Node, ghost k: nat)
      requires Valid() && k < |nodes| && e == nodes[k]
      modifies this, nodes
      ensures Valid() && nodes == Except(old(nodes), k)
      ensures e.next == After(nodes, k) && e.prev == Before(nodes, k)
    {
      ghost var ns := nodes;
      hide Distinct, Forward, Backward, Except, Before, After;
      OnlyAt(ns, k); ExceptAt(ns, k);
      RemoveBack(e, ns, k);
      RemoveForth(e, ns, k);
      Become(Except(ns, k));
    }

    method RemoveBack(e: Node, ghost ns: seq<Node>, ghost k: nat)
      requires Distinct(ns) && Forward(ns) && Backward(ns) && k < |ns| && e == ns[k]
      modifies `last, ns`prev
      ensures Backward(Except(ns, k)) && e.prev == Before(ns, k)
    {
      hide Before, After, Except;
      NextIs(ns, k);
      if k + 1 < |ns| { OnlyAt(ns, k + 1); }
      UnlinkBack(e);
      BackwardExcept(ns, k);
    }

    lemma NextIs(ns: seq<Node>, k: nat)
      requires Forward(ns) && k < |ns|
      ensures ns[k].next == if k + 1 < |ns| then ns[k + 1] else null
    {
    }

    lemma PrevIs(ns: seq<Node>, k: nat)
      requires k < |ns| && ns[k].prev == Before(ns, k)
      ensures ns[k].prev == if k > 0 then ns[k - 1] else null
    {
    }

    lemma BackwardExcept(ns: seq<Node>, k: nat)
      requires k < |ns| && last == if k + 1 == |ns| then Before(ns, k) else Before(ns, |ns|)
      requires forall i :: 0 <= i < |ns| ==> ns[i].prev == Before(ns, if i == k + 1 then k else i)
      ensures Backward(Except(ns, k))
    {
      hide Before, After, Except;
      ExceptAt(ns, k);
      var m := Except(ns, k);
      forall i | 0 <= i < |m| ensures m[i].prev == Before(m, i) {
        assert m[i] == ns[if i < k then i else i + 1];
      }
    }

    method RemoveForth(e: Node, ghost ns: seq<Node>, ghost k: nat)
      requires Distinct(ns) && Forward(ns) && k < |ns| && e == ns[k] && e.prev == Before(ns, k)
      modifies `first, ns`next
      ensures Forward(Except(ns, k)) && e.next == After(ns, k + 1)
    {
      hide Before, After, Except;
      PrevIs(ns, k);
      if k > 0 { OnlyAt(ns, k - 1); }
      UnlinkForth(e);
      ForwardExcept(ns, k);
    }

    lemma ForwardExcept(ns: seq<Node>, k: nat)
      requires k < |ns| && first == if k == 0 then After(ns, 1) else After(ns, 0)
      requires forall i :: 0 <= i < |ns| ==> ns[i].next == After(ns, if i + 1 == k then k + 1 else i + 1)
      ensures Forward(Except(ns, k))
    {
      hide Before, After, Except;
      ExceptAt(ns, k);
      var m := Except(ns, k);
      forall i | 0 <= i < |m| ensures m[i].next == After(m, i + 1) {
        assert m[i] == ns[if i < k then i else i + 1];
      }
    }

    /** TAILQ_REMOVE of an element that has left the queue: it does no harm if and only if the
        neighbours the element had are next to each other or have both left as well. */
    method RemoveAgain(e: Node)
      requires Valid() && e !in nodes && e.next != e && e.prev != e
      modifies this, if e.next == null then {} else {e.next}, if e.prev == null then {} else {e.prev}
      ensures nodes == old(nodes)
      ensures Valid() <==> Adjacent(nodes, old(e.prev), old(e.next)) || BothGone(nodes, old(e.prev), old(e.next))
    {
      ghost var prev, next := e.prev, e.next;
      AgainBack(e);
      AgainForth(e);
      hide Distinct, Forward, Backward;
      Together(nodes, prev, next);
    }

    /** Where the element before, or the end for null, belongs. */
    ghost predicate FitsBefore(ns: seq<Node>, prev: Node?, next: Node?) {
      if next == null then prev == Before(ns, |ns|) else forall i :: 0 <= i < |ns| && ns[i] == next ==> prev == Before(ns, i)
    }

    ghost predicate FitsAfter(ns: seq<Node>, prev: Node?, next: Node?) {
      if prev == null then next == After(ns, 0) else forall i :: 0 <= i < |ns| && ns[i] == prev ==> next == After(ns, i + 1)
    }

    method AgainBack(e: Node)
      requires Distinct(nodes) && Backward(nodes) && e.next != e
      modifies `last, (if e.next == null then {} else {e.next})`prev
      ensures e.prev == old(e.prev)
      ensures Backward(nodes) <==> FitsBefore(nodes, e.prev, e.next)
    {
      if e.next != null && e.next in nodes {
        ghost var i :| 0 <= i < |nodes| && nodes[i] == e.next;
        OnlyAt(nodes, i);
      }
      hide Distinct;
      UnlinkBack(e);
    }

    method AgainForth(e: Node)
      requires Distinct(nodes) && Forward(nodes) && e.prev != e
      modifies `first, (if e.prev == null then {} else {e.prev})`next
      ensures Forward(nodes) <==> FitsAfter(nodes, e.prev, old(e.next))
    {
      if e.prev != null && e.prev in nodes {
        ghost var i :| 0 <= i < |nodes| && nodes[i] == e.prev;
        OnlyAt(nodes, i);
      }
      hide Distinct;
      UnlinkForth(e);
    }

    lemma Together(ns: seq<Node>, prev: Node?, next: Node?)
      requires Distinct(ns)
      ensures FitsBefore(ns, prev, next) && FitsAfter(ns, prev, next) <==> Adjacent(ns, prev, next) || BothGone(ns, prev, next)
    {
      if FitsBefore(ns, prev, next) && FitsAfter(ns, prev, next) {
        if prev == null {
          assert prev == Before(ns, 0) && next == After(ns, 0);
        } else if prev in ns {
          var i :| 0 <= i < |ns| && ns[i] == prev;
          assert prev == Before(ns, i + 1) && next == After(ns, i + 1);
        }
      }
    }

    /** A socket that leaves its queue and is removed again after another has joined takes that one
        with it. */
    static method LosesAnother() returns (h: Head, t: Node)
      ensures fresh(h) && h.nodes == [t] && h.first == null && !h.Valid()
    {
      h := new Head();
      var s := new Node();
      t := new Node();
      h.InsertTail(s);
      h.Remove(s, 0);
      h.InsertTail(t);
      h.UnlinkBack(s);
      h.UnlinkForth(s);
    }
  }
}
