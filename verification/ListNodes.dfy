/** The nodes of the singly linked list and the account of how many exist. */
module ListNodes {
  import opened Common

  /** Counts value nodes made with `new` and destroyed with `delete`. */
  class Ledger {
    ghost var created: nat
    ghost var deleted: nat

    constructor ()
      ensures created == 0 && deleted == 0
    {
      created, deleted := 0, 0;
    }
  }

  /** A link. The sentinel inside a list object holds no value; every other
      node does, so `value.Some?` is what a downcast to a value node needs.
      `live` is false before construction and after destruction, and every
      access below demands it: a verified caller never uses a deleted node. */
  class Node<T> {
    const value: Option<T>
    var next: Node?<T>
    ghost var live: bool

    constructor Sentinel()
      ensures live && value == None && next == null
    {
      value, next, live := None, null, true;
    }

    constructor Holding(v: T, ledger: Ledger)
      modifies ledger
      ensures live && value == Some(v) && next == null
      ensures ledger.created == old(ledger.created) + 1 && ledger.deleted == old(ledger.deleted)
    {
      value, next, live := Some(v), null, true;
      new;
      ledger.created := ledger.created + 1;
    }

    function Next(): Node?<T>
      requires live
      reads this
    {
      next
    }

    function Value(): T
      requires live && value.Some?
      reads this
    {
      value.value
    }

    method SetNext(node: Node?<T>)
      requires live
      modifies this`next
      ensures next == node
    {
      next := node;
    }

    /** `delete`: only a live value node may be deleted, and it is live no more. */
    method Delete(ledger: Ledger)
      requires live && value.Some?
      modifies this`live, ledger
      ensures !live
      ensures ledger.deleted == old(ledger.deleted) + 1 && ledger.created == old(ledger.created)
    {
      live := false;
      ledger.deleted := ledger.deleted + 1;
    }

    /** The end of the list object that the sentinel is part of. */
    method Expire()
      requires live && value == None
      modifies this`live
      ensures !live
    {
      live := false;
    }
  }

  /** `new Node(args)`: the allocation or the element's constructor may throw,
      and then nothing was made. */
  method Create<T>(v: T, throws: bool, ledger: Ledger) returns (node: Node?<T>)
    modifies ledger
    ensures throws <==> node == null
    ensures throws ==> unchanged(ledger)
    ensures node != null ==> fresh(node) && node.live && node.value == Some(v) && node.next == null
    ensures node != null ==> ledger.created == old(ledger.created) + 1 && ledger.deleted == old(ledger.deleted)
  {
    if throws {
      return null;
    }
    node := new Node.Holding(v, ledger);
  }

  /** The first of `nodes`, or `exit` when there is none. */
  function Entry<T>(nodes: seq<Node<T>>, exit: Node?<T>): Node?<T> {
    if nodes == [] then exit else nodes[0]
  }

  /** Following `next` from the first of `nodes` visits exactly `nodes`, all of
      them live, and then leaves for `exit`. */
  ghost predicate Segment<T>(nodes: seq<Node<T>>, exit: Node?<T>)
    reads nodes
  {
    nodes != [] ==>
      && nodes[0].live
      && nodes[0].next == Entry(nodes[1..], exit)
      && Segment(nodes[1..], exit)
  }

  lemma {:induction false} SegmentAt<T>(nodes: seq<Node<T>>, exit: Node?<T>, k: nat)
    requires Segment(nodes, exit) && k < |nodes|
    ensures nodes[k].live
    ensures nodes[k].next == if k + 1 < |nodes| then nodes[k + 1] else exit
  {
    if k > 0 {
      SegmentAt(nodes[1..], exit, k - 1);
    }
  }

  lemma {:induction false} SegmentSplit<T>(a: seq<Node<T>>, b: seq<Node<T>>, exit: Node?<T>)
    requires Segment(a + b, exit)
    ensures Segment(a, Entry(b, exit)) && Segment(b, exit)
  {
    if a == [] {
      assert a + b == b;
    } else {
      assert (a + b)[1..] == a[1..] + b;
      SegmentSplit(a[1..], b, exit);
    }
  }

  lemma {:induction false} SegmentJoin<T>(a: seq<Node<T>>, b: seq<Node<T>>, exit: Node?<T>)
    requires Segment(a, Entry(b, exit)) && Segment(b, exit)
    ensures Segment(a + b, exit)
  {
    if a == [] {
      assert a + b == b;
    } else {
      SegmentJoin(a[1..], b, exit);
      assert (a + b)[1..] == a[1..] + b;
    }
  }

  /** A chain ends, so it never comes back to a node: chains have no cycle. */
  lemma {:induction false} ChainAcyclic<T>(nodes: seq<Node<T>>, i: nat, j: nat)
    requires Segment(nodes, null) && i < j < |nodes|
    ensures nodes[i] != nodes[j]
    decreases |nodes| - j
  {
    SegmentAt(nodes, null, i);
    SegmentAt(nodes, null, j);
    if j + 1 < |nodes| {
      ChainAcyclic(nodes, i + 1, j + 1);
    }
  }

  /** Around a node of a chain: it occurs nowhere else, and the nodes on either
      side of it are segments of their own. */
  lemma Isolate<T>(before: seq<Node<T>>, n: Node<T>, after: seq<Node<T>>)
    requires Segment(before + [n] + after, null)
    ensures n.live && n.next == Entry(after, null)
    ensures n !in before && n !in after
    ensures Segment(before, n) && Segment(after, null)
  {
    var nodes := before + [n] + after;
    SegmentSplit(before + [n], after, null);
    SegmentSplit(before, [n], Entry(after, null));
    forall k | 0 <= k < |nodes| && k != |before|
      ensures nodes[k] != n
    {
      if k < |before| {
        ChainAcyclic(nodes, k, |before|);
      } else {
        ChainAcyclic(nodes, |before|, k);
      }
    }
    assert forall k | 0 <= k < |before| :: before[k] == nodes[k];
    assert forall k | 0 <= k < |after| :: after[k] == nodes[k + |before| + 1];
  }

  /** The converse: once `n` leads into what follows it, the whole is a chain. */
  lemma Relink<T>(before: seq<Node<T>>, n: Node<T>, after: seq<Node<T>>)
    requires Segment(before, n) && n.live && n.next == Entry(after, null)
    requires Segment(after, null)
    ensures Segment(before + [n] + after, null)
  {
    SegmentJoin([n], after, null);
    SegmentJoin(before, [n] + after, null);
    assert before + ([n] + after) == before + [n] + after;
  }

  /** What `first->m_next` is when a range is still to be erased after it: the
      end of the range exactly when the range is empty. */
  lemma AroundRange<T>(before: seq<Node<T>>, first: Node<T>, range: seq<Node<T>>, after: seq<Node<T>>)
    requires Segment(before + [first] + range + after, null)
    ensures first.live && first.next == Entry(range, Entry(after, null))
    ensures first.next == Entry(after, null) <==> range == []
  {
    assert before + [first] + range + after == before + [first] + (range + after);
    Isolate(before, first, range + after);
    if range != [] && after != [] {
      var nodes := before + [first] + range + after;
      ChainAcyclic(nodes, |before| + 1, |before| + 1 + |range|);
    }
  }

  /** The links before position i, between i and j, and from j on. */
  lemma AroundPositions<T>(links: seq<Node<T>>, i: nat, j: nat)
    requires i < j <= |links|
    ensures links == links[..i] + [links[i]] + links[i + 1..j] + links[j..]
    ensures links[..i + 1] == links[..i] + [links[i]]
    ensures forall n <- links[i + 1..j] :: n in links
    ensures forall n <- links[..i + 1] + links[j..] :: n in links
  {
  }

  /** `node->m_next = pos->m_next; pos->m_next = node;` */
  method LinkAfter<T>(pos: Node<T>, node: Node<T>, ghost before: seq<Node<T>>, ghost after: seq<Node<T>>)
    requires Segment(before + [pos] + after, null)
    requires node != pos && node !in before && node !in after && node.live
    modifies pos`next, node`next
    ensures pos !in before && pos !in after
    ensures Segment(before + [pos, node] + after, null)
  {
    Isolate(before, pos, after);
    node.SetNext(pos.Next());
    pos.SetNext(node);
    Relink(before, pos, [node] + after);
    assert before + [pos] + ([node] + after) == before + [pos, node] + after;
  }

  /** `last->m_next = node;` at the end of the chain. */
  method LinkLast<T>(last: Node<T>, node: Node<T>, ghost before: seq<Node<T>>)
    requires Segment(before + [last], null)
    requires node != last && node !in before && node.live && node.next == null
    modifies last`next
    ensures last !in before
    ensures Segment(before + [last, node], null)
  {
    assert before + [last] == before + [last] + [];
    Isolate(before, last, []);
    last.SetNext(node);
    Relink(before, last, [node]);
    assert before + [last] + [node] == before + [last, node];
  }

  /** `pos->m_next = node->m_next;` where `node` follows `pos`. */
  method UnlinkAfter<T>(pos: Node<T>, node: Node<T>, ghost before: seq<Node<T>>, ghost after: seq<Node<T>>)
    returns (next: Node?<T>)
    requires Segment(before + [pos, node] + after, null)
    modifies pos`next
    ensures next == Entry(after, null)
    ensures pos !in before && pos !in after && node !in before && node !in after && node != pos && node.live
    ensures Segment(before + [pos] + after, null)
  {
    assert before + [pos, node] + after == before + [pos] + ([node] + after);
    assert before + [pos, node] + after == (before + [pos]) + [node] + after;
    Isolate(before, pos, [node] + after);
    Isolate(before + [pos], node, after);
    next := node.Next();
    pos.SetNext(next);
    Relink(before, pos, after);
  }

  /** `delete last; prev->m_next = nullptr;` at the end of the chain. */
  method DropLast<T>(prev: Node<T>, last: Node<T>, ledger: Ledger, ghost before: seq<Node<T>>)
    requires Segment(before + [prev, last], null) && last.value.Some?
    modifies prev`next, last`live, ledger
    ensures Segment(before + [prev], null) && !last.live
    ensures ledger.deleted == old(ledger.deleted) + 1 && ledger.created == old(ledger.created)
  {
    assert before + [prev, last] == before + [prev] + [last];
    assert before + [prev, last] == (before + [prev]) + [last] + [];
    Isolate(before, prev, [last]);
    Isolate(before + [prev], last, []);
    last.Delete(ledger);
    prev.SetNext(null);
    Relink(before, prev, []);
    assert before + [prev] + [] == before + [prev];
  }

  /** `node = first; first = first->m_next; delete node;` */
  method DeleteFirst<T>(first: Node<T>, ledger: Ledger, ghost rest: seq<Node<T>>) returns (next: Node?<T>)
    requires Segment([first] + rest, null) && first.value.Some?
    modifies first`live, ledger
    ensures Segment(rest, null) && next == Entry(rest, null)
    ensures !first.live && first !in rest
    ensures ledger.deleted == old(ledger.deleted) + 1 && ledger.created == old(ledger.created)
  {
    assert [first] + rest == [] + [first] + rest;
    Isolate([], first, rest);
    next := first.Next();
    first.Delete(ledger);
  }

  /** The sentinel and only the sentinel holds no element. */
  ghost predicate Typed<T>(links: seq<Node<T>>) {
    forall i {:trigger links[i].value} | 0 <= i < |links| :: links[i].value.Some? <==> i > 0
  }

  /** One step through a range: its first node is what follows `first`. */
  lemma PeelRange<T>(before: seq<Node<T>>, first: Node<T>, range: seq<Node<T>>, after: seq<Node<T>>)
    requires range != []
    ensures before + [first] + range + after == before + [first, range[0]] + (range[1..] + after)
    ensures before + [first] + range[1..] + after == before + [first] + (range[1..] + after)
    ensures Typed(before + [first] + range + after) ==> Typed(before + [first] + (range[1..] + after))
  {
    var links, short := before + [first] + range + after, before + [first] + (range[1..] + after);
    if Typed(links) {
      forall i | 0 <= i < |short|
        ensures short[i].value.Some? <==> i > 0
      {
        assert short[i] == if i <= |before| then links[i] else links[i + 1];
      }
    }
  }

  /** The value nodes of one list fit behind the sentinel of another. */
  lemma TypedBehind<T>(links: seq<Node<T>>, sentinel: Node<T>)
    requires links != [] && Typed(links) && sentinel.value == None
    ensures Typed([sentinel] + links[1..])
    ensures Elements([sentinel] + links[1..]) == Elements(links)
  {
  }

  ghost predicate Disjoint<T>(a: seq<Node<T>>, b: seq<Node<T>>) {
    forall n <- a :: n !in b
  }

  /** Two lists that share no link still share none after exchanging their nodes. */
  lemma DisjointSwap<T>(a: seq<Node<T>>, b: seq<Node<T>>)
    requires a != [] && b != [] && Disjoint(a, b) && a[0] !in a[1..] && b[0] !in b[1..]
    ensures Disjoint([a[0]] + b[1..], [b[0]] + a[1..])
  {
    forall n <- [a[0]] + b[1..]
      ensures n !in [b[0]] + a[1..]
    {
      if n == a[0] {
        assert n in a;
        assert b[0] in b;
      } else {
        assert n in b[1..] && n in b;
        assert n in a[1..] ==> n in a;
      }
    }
  }

  /** The elements of a list: what its links after the sentinel hold. */
  ghost function Elements<T>(links: seq<Node<T>>): (es: seq<T>)
    requires links != [] && Typed(links)
    ensures |es| == |links| - 1
    ensures forall i {:trigger es[i]} | 0 <= i < |es| :: Some(es[i]) == links[i + 1].value
  {
    seq(|links| - 1, i requires 0 <= i < |links| - 1 => links[i + 1].value.value)
  }

  /** Inserting a node after link i inserts its element at index i. */
  lemma ElementsInsert<T>(links: seq<Node<T>>, i: nat, n: Node<T>)
    requires i < |links| && Typed(links) && n.value.Some?
    ensures Typed(links[..i + 1] + [n] + links[i + 1..])
    ensures Elements(links[..i + 1] + [n] + links[i + 1..]) ==
            Elements(links)[..i] + [n.value.value] + Elements(links)[i..]
  {
  }

  /** Removing the nodes strictly between link i and link j + 1 removes the
      elements at indices i, ..., j - 1. */
  lemma ElementsRemove<T>(links: seq<Node<T>>, i: nat, j: nat)
    requires i <= j < |links| && Typed(links)
    ensures Typed(links[..i + 1] + links[j + 1..])
    ensures Elements(links[..i + 1] + links[j + 1..]) == Elements(links)[..i] + Elements(links)[j..]
  {
  }

  ghost predicate Dead<T>(nodes: seq<Node<T>>)
    reads nodes
  {
    forall n <- nodes :: !n.live
  }
}
