/** The singly linked list of include/containers/slist.hpp. */
module SListModel {
  import opened Common
  import opened ListNodes

  class SList<T(==)> {
    const ledger: Ledger
    const beforeHead: Node<T>
    var head: Node?<T>
    var tail: Node?<T>
    var size: nat
    /** The sentinel and then the value nodes, in order. `links[i]` is where
        `before_begin()` gets to after i increments: the position, or iterator,
        i. Value node k is `links[k + 1]`. */
    ghost var links: seq<Node<T>>

    ghost predicate Valid()
      reads this, links
    {
      && links != [] && links[0] == beforeHead
      && Segment(links, null)
      && Typed(links)
      && size == |links| - 1
      && head == Entry(links[1..], null)
      && tail == if |links| == 1 then null else links[|links| - 1]
    }

    ghost function At(i: nat): Node<T>
      requires i < |links|
      reads this
    {
      links[i]
    }

    ghost function Contents(): seq<T>
      requires links != [] && Typed(links)
      reads this
    {
      Elements(links)
    }

    constructor (ledger: Ledger)
      ensures Valid() && this.ledger == ledger && fresh(beforeHead) && Contents() == []
    {
      this.ledger := ledger;
      var sentinel := new Node<T>.Sentinel();
      beforeHead := sentinel;
      head, tail, size := null, null, 0;
      links := [sentinel];
    }

    method SyncBeforeHead()
      requires beforeHead.live
      modifies beforeHead`next
      ensures beforeHead.next == head
    {
      beforeHead.SetNext(head);
    }

    /** `sync_before_head()` as the last step of taking over the value nodes `rest`. */
    method Adopt(ghost rest: seq<Node<T>>)
      requires beforeHead.live && beforeHead !in rest
      requires Segment(rest, null) && Typed([beforeHead] + rest)
      requires head == Entry(rest, null) && size == |rest|
      requires tail == if rest == [] then null else rest[|rest| - 1]
      modifies this`links, beforeHead`next
      ensures Valid() && links == [beforeHead] + rest
    {
      SyncBeforeHead();
      links := [beforeHead] + rest;
    }

    method EmplaceBack(v: T, throws: bool)
      requires Valid()
      modifies this, ledger, At(size)`next
      ensures Valid()
      ensures throws ==> unchanged(this, ledger, old(At(size)))
      ensures !throws ==> links == old(links) + [links[|links| - 1]] && fresh(links[|links| - 1])
      ensures !throws ==> Contents() == old(Contents()) + [v]
      ensures !throws ==> ledger.created == old(ledger.created) + 1 && ledger.deleted == old(ledger.deleted)
    {
      var node := Create(v, throws, ledger);
      if node == null {
        return;
      }
      Append(node);
    }

    /** The relinking in `emplace_back`, once the node is made. */
    method Append(node: Node<T>)
      requires Valid()
      requires node !in links && node.live && node.value.Some? && node.next == null
      modifies this, At(size)`next
      ensures Valid()
      ensures links == old(links) + [node]
    {
      ghost var before := links[..|links| - 1];
      assert links == before + [links[|links| - 1]];
      if head == null {
        head := node;
        tail := head;
        SyncBeforeHead();
        assert links + [node] == [beforeHead, node];
      } else {
        LinkLast(tail, node, before);
        tail := node;
        assert links + [node] == before + [links[|links| - 1], node];
      }
      size := size + 1;
      links := links + [node];
    }

    method EmplaceFront(v: T, throws: bool)
      requires Valid()
      modifies this, ledger, beforeHead`next
      ensures Valid()
      ensures throws ==> unchanged(this, ledger, beforeHead)
      ensures !throws ==> |links| > 1 && fresh(links[1]) && links == [beforeHead] + ([links[1]] + old(links)[1..])
      ensures !throws ==> Contents() == [v] + old(Contents())
      ensures !throws ==> ledger.created == old(ledger.created) + 1 && ledger.deleted == old(ledger.deleted)
    {
      var node := Create(v, throws, ledger);
      if node == null {
        return;
      }
      Prepend(node);
    }

    /** The relinking in `emplace_front`, once the node is made. */
    method Prepend(node: Node<T>)
      requires Valid()
      requires node !in links && node.live && node.value.Some? && node.next == null
      modifies this, beforeHead`next, node`next
      ensures Valid() && links == [beforeHead] + ([node] + old(links)[1..])
    {
      ghost var rest := links[1..];
      BehindSentinel();
      if head == null {
        head := node;
        tail := head;
      } else {
        node.SetNext(head);
        head := node;
      }
      size := size + 1;
      Adopt([node] + rest);
    }

    /** The relinking in `emplace_after`, once the node is made. */
    method Hook(pos: Node<T>, node: Node<T>, ghost before: seq<Node<T>>, ghost after: seq<Node<T>>)
      requires Valid() && links == before + [pos] + after
      requires node !in links && node.live && Typed(before + [pos, node] + after)
      modifies this, beforeHead`next, pos`next, node`next
      ensures Valid() && links == before + [pos, node] + after
    {
      LinkAfter(pos, node, before, after);
      assert pos == beforeHead <==> before == [];
      assert tail == pos || tail == null <==> after == [];
      if pos == beforeHead {
        head := node;
      }
      if tail == pos || tail == null {
        tail := node;
      }
      size := size + 1;
      links := before + [pos, node] + after;
      SyncBeforeHead();
    }

    method EmplaceAfter(pos: Node<T>, ghost i: nat, v: T, throws: bool) returns (it: Node?<T>)
      requires Valid()
      requires i < |links| && pos == links[i]
      modifies this, ledger, beforeHead`next, pos`next
      ensures Valid()
      ensures throws ==> it == null && unchanged(this, ledger, beforeHead, pos)
      ensures !throws ==> it != null && fresh(it) && links == old(links)[..i + 1] + [it] + old(links)[i + 1..]
      ensures !throws ==> Contents() == old(Contents())[..i] + [v] + old(Contents())[i..]
      ensures !throws ==> ledger.created == old(ledger.created) + 1 && ledger.deleted == old(ledger.deleted)
    {
      it := Create(v, throws, ledger);
      if it == null {
        return;
      }
      ElementsInsert(links, i, it);
      ghost var before, after := links[..i], links[i + 1..];
      assert links == before + [pos] + after;
      assert links[..i + 1] + [it] + after == before + [pos, it] + after;
      Hook(pos, it, before, after);
    }

    /** The relinking in `erase_after(pos)`: `node` leaves the list alive. */
    method Unhook(pos: Node<T>, node: Node<T>, ghost before: seq<Node<T>>, ghost after: seq<Node<T>>)
      returns (next: Node?<T>)
      requires Valid() && links == before + [pos, node] + after && Typed(before + [pos] + after)
      modifies this, beforeHead`next, pos`next
      ensures Valid() && links == before + [pos] + after
      ensures node !in links && node.live && next == Entry(after, null)
    {
      next := UnlinkAfter(pos, node, before, after);
      assert (pos == beforeHead <==> before == []) && (node == head <==> before == []);
      assert node == tail <==> after == [];
      if node == head {
        head := next;
      }
      if node == tail {
        tail := if pos == beforeHead then null else pos;
      }
      size := size - 1;
      links := before + [pos] + after;
      SyncBeforeHead();
    }

    /** `erase_after(pos)`, in terms of the links around the erased node. */
    method EraseNext(pos: Node<T>, ghost node: Node<T>, ghost before: seq<Node<T>>, ghost after: seq<Node<T>>)
      returns (it: Node?<T>)
      requires Valid() && links == before + [pos, node] + after && Typed(before + [pos] + after)
      modifies this, ledger, beforeHead`next, pos`next, node`live
      ensures Valid() && links == before + [pos] + after
      ensures !node.live && it == Entry(after, null)
      ensures ledger.deleted == old(ledger.deleted) + 1 && ledger.created == old(ledger.created)
    {
      SegmentAt(links, null, |before|);
      assert node == links[|before| + 1] && links[|before|] == pos;
      var nodeToErase := pos.Next();
      it := Unhook(pos, nodeToErase, before, after);
      nodeToErase.Delete(ledger);
    }

    /** `erase_after(pos)`: there must be a node after `pos`. */
    method EraseAfter(pos: Node<T>, ghost i: nat) returns (it: Node?<T>)
      requires Valid()
      requires i + 1 < |links| && pos == links[i]
      modifies this, ledger, beforeHead`next, pos`next, At(i + 1)`live
      ensures Valid()
      ensures links == old(links)[..i + 1] + old(links)[i + 2..] && !old(links)[i + 1].live
      ensures it == if i + 1 < |links| then links[i + 1] else null
      ensures Contents() == old(Contents())[..i] + old(Contents())[i + 1..]
      ensures ledger.deleted == old(ledger.deleted) + 1 && ledger.created == old(ledger.created)
    {
      ElementsRemove(links, i, i + 1);
      ghost var before, node, after := links[..i], links[i + 1], links[i + 2..];
      assert links == before + [pos, node] + after;
      assert links[..i + 1] + after == before + [pos] + after;
      it := EraseNext(pos, node, before, after);
    }

    /** The walk in `pop_back`, for a list of at least two elements. */
    method LastTwo() returns (prev: Node<T>, curr: Node<T>)
      requires Valid() && |links| > 2
      ensures prev == links[|links| - 2] && curr == links[|links| - 1]
    {
      ghost var k := 1;
      SegmentAt(links, null, 1);
      SegmentAt(links, null, 2);
      prev := head;
      curr := head.Next();
      while curr.Next() != null
        invariant Valid() && 1 <= k < |links| - 1 && prev == links[k] && curr == links[k + 1]
        invariant curr.live && curr.next == if k + 2 < |links| then links[k + 2] else null
        decreases |links| - k
      {
        SegmentAt(links, null, k);
        curr := curr.Next();
        prev := prev.Next();
        k := k + 1;
        SegmentAt(links, null, k + 1);
      }
    }

    method PopBack()
      requires Valid()
      modifies this, ledger, beforeHead`next, links`next, At(size)`live
      ensures Valid()
      ensures |old(links)| == 1 ==> links == old(links) && unchanged(ledger)
      ensures |old(links)| > 1 ==> links == old(links)[..old(size)] && !old(links)[old(size)].live
      ensures |old(links)| > 1 ==> Contents() == old(Contents())[..old(size) - 1]
      ensures |old(links)| > 1 ==> ledger.deleted == old(ledger.deleted) + 1 && ledger.created == old(ledger.created)
    {
      if head == null {
        return;
      }
      SegmentAt(links, null, 1);
      if head.Next() == null {
        PopOnly();
      } else {
        PopLast();
      }
    }

    /** `pop_back` when there is one element. */
    method PopOnly()
      requires Valid() && |links| == 2
      modifies this, ledger, beforeHead`next, head`live
      ensures Valid() && links == [beforeHead] && Contents() == [] && !old(links)[1].live
      ensures ledger.deleted == old(ledger.deleted) + 1 && ledger.created == old(ledger.created)
    {
      assert links == [beforeHead, head];
      SegmentAt(links, null, 0);
      SegmentAt(links, null, 1);
      head.Delete(ledger);
      size := size - 1;
      head := null;
      tail := null;
      links := [beforeHead];
      SyncBeforeHead();
    }

    /** `pop_back` when there are more. */
    method PopLast()
      requires Valid() && |links| > 2
      modifies this, ledger, beforeHead`next, links`next, At(size)`live
      ensures Valid() && links == old(links)[..old(size)] && !old(links)[old(size)].live
      ensures Contents() == old(Contents())[..old(size) - 1]
      ensures ledger.deleted == old(ledger.deleted) + 1 && ledger.created == old(ledger.created)
    {
      var prev, curr := LastTwo();
      ghost var before := links[..|links| - 2];
      assert links == before + [prev, curr];
      DropLast(prev, curr, ledger, before);
      tail := prev;
      size := size - 1;
      links := before + [prev];
      SyncBeforeHead();
    }

    method PopFront()
      requires Valid()
      modifies this, ledger, beforeHead`next, links`live
      ensures Valid()
      ensures |old(links)| == 1 ==> links == old(links) && unchanged(ledger)
      ensures |old(links)| > 1 ==> links == [beforeHead] + old(links)[2..] && !old(links)[1].live
      ensures |old(links)| > 1 ==> Contents() == old(Contents())[1..]
      ensures |old(links)| > 1 ==> ledger.deleted == old(ledger.deleted) + 1 && ledger.created == old(ledger.created)
    {
      if head == null {
        return;
      }
      ghost var rest := links[2..];
      BehindSentinel();
      assert links[1..] == [head] + rest;
      ElementsRemove(links, 0, 1);
      assert links[..1] + links[2..] == [beforeHead] + rest;
      head := DeleteFirst(head, ledger, rest);
      size := size - 1;
      if head == null {
        tail := null;
      }
      Adopt(rest);
    }

    /** One round of the loop in `erase_after(first, last)`. */
    method EraseFirstOf(first: Node<T>, ghost node: Node<T>,
        ghost before: seq<Node<T>>, ghost range: seq<Node<T>>, ghost after: seq<Node<T>>)
      requires Valid() && range != [] && range[0] == node && links == before + [first] + range + after
      modifies this, ledger, beforeHead`next, first`next, node`live
      ensures Valid() && links == before + [first] + range[1..] + after && !node.live
      ensures first.live && (first.next == Entry(after, null) <==> range[1..] == [])
      ensures ledger.deleted == old(ledger.deleted) + 1 && ledger.created == old(ledger.created)
    {
      PeelRange(before, first, range, after);
      var next := EraseNext(first, node, before, range[1..] + after);
      AroundRange(before, first, range[1..], after);
    }

    /** `erase_after(first, last)`, in terms of the links around the range. */
    method EraseBetween(first: Node<T>, last: Node?<T>,
        ghost before: seq<Node<T>>, ghost middle: seq<Node<T>>, ghost after: seq<Node<T>>) returns (it: Node?<T>)
      requires Valid() && links == before + [first] + middle + after
      requires last == Entry(after, null)
      modifies this, ledger, beforeHead`next, first`next, middle`live
      ensures Valid() && links == before + [first] + after
      ensures Dead(middle) && it == last
      ensures ledger.deleted == old(ledger.deleted) + |middle| && ledger.created == old(ledger.created)
    {
      ghost var rest := middle;
      AroundRange(before, first, rest, after);
      while first.Next() != last
        invariant Valid() && links == before + [first] + rest + after
        invariant first.live && (first.next == last <==> rest == [])
        invariant (forall n <- rest :: n in middle) && (forall n <- middle :: n in rest || !n.live)
        invariant ledger.deleted + |rest| == old(ledger.deleted) + |middle| && ledger.created == old(ledger.created)
        decreases |rest|
      {
        ghost var node := rest[0];
        assert node in rest && rest == [node] + rest[1..];
        EraseFirstOf(first, node, before, rest, after);
        rest := rest[1..];
      }
      it := last;
    }

    /** The loop in `clear`: deletes the value nodes from the front. */
    method DeleteAll(ghost nodes: seq<Node<T>>)
      requires Segment(nodes, null) && head == Entry(nodes, null)
      requires forall n <- nodes :: n.value.Some?
      modifies this`head, ledger, nodes`live
      ensures head == null && Dead(nodes)
      ensures ledger.deleted == old(ledger.deleted) + |nodes| && ledger.created == old(ledger.created)
    {
      ghost var rest := nodes;
      while head != null
        invariant Segment(rest, null) && head == Entry(rest, null)
        invariant (forall n <- rest :: n in nodes) && (forall n <- nodes :: n in rest || !n.live)
        invariant ledger.deleted + |rest| == old(ledger.deleted) + |nodes| && ledger.created == old(ledger.created)
        decreases |rest|
      {
        ghost var others := rest[1..];
        assert rest == [head] + others;
        head := DeleteFirst(head, ledger, others);
        rest := others;
      }
    }

    method Clear()
      requires Valid()
      modifies this, ledger, beforeHead`next, links`live
      ensures Valid() && Contents() == [] && Dead(old(links)[1..])
      ensures ledger.deleted == old(ledger.deleted) + old(size) && ledger.created == old(ledger.created)
    {
      ghost var nodes := links[1..];
      assert links == [] + [beforeHead] + nodes;
      Isolate([], beforeHead, nodes);
      DeleteAll(nodes);
      head := null;
      tail := null;
      size := 0;
      SyncBeforeHead();
      links := [beforeHead];
    }

    method EraseRange(first: Node<T>, last: Node?<T>, ghost i: nat, ghost j: nat) returns (it: Node?<T>)
      requires Valid()
      requires i < j <= |links| && first == links[i]
      requires last == if j < |links| then links[j] else null
      modifies this, ledger, beforeHead`next, first`next, links`live
      ensures Valid() && links == old(links)[..i + 1] + old(links)[j..]
      ensures Dead(old(links)[i + 1..j]) && it == last && forall n <- links :: n in old(links)
      ensures Contents() == old(Contents())[..i] + old(Contents())[j - 1..]
      ensures ledger.deleted == old(ledger.deleted) + (j - i - 1) && ledger.created == old(ledger.created)
    {
      ElementsRemove(links, i, j - 1);
      AroundPositions(links, i, j);
      it := EraseBetween(first, last, links[..i], links[i + 1..j], links[j..]);
    }

    /** The value nodes form a chain of their own that the sentinel is not in. */
    lemma BehindSentinel()
      requires Valid()
      ensures Segment(links[1..], null) && beforeHead !in links[1..]
      ensures beforeHead.live && beforeHead.value == None
    {
      assert links == [] + [beforeHead] + links[1..];
      Isolate([], beforeHead, links[1..]);
    }

    /** The value nodes of this list can stand behind the sentinel of `other`. */
    lemma FitsBehind(other: SList<T>)
      requires Valid() && other.Valid() && (other == this || Disjoint(links, other.links))
      ensures Segment(links[1..], null) && beforeHead.live && beforeHead !in links[1..]
      ensures other.beforeHead !in links[1..] && Typed([other.beforeHead] + links[1..])
      ensures Elements([other.beforeHead] + links[1..]) == Contents()
    {
      BehindSentinel();
      other.BehindSentinel();
      TypedBehind(links, other.beforeHead);
      assert other.beforeHead in other.links;
    }

    method Swap(other: SList<T>)
      requires Valid() && other.Valid()
      requires other == this || Disjoint(links, other.links)
      modifies this, other, beforeHead`next, other.beforeHead`next
      ensures Valid() && other.Valid()
      ensures links == [beforeHead] + old(other.links)[1..] && Contents() == old(other.Contents())
      ensures other.links == [other.beforeHead] + old(links)[1..] && other.Contents() == old(Contents())
      ensures other != this ==> Disjoint(links, other.links)
    {
      ghost var mine, others := links[1..], other.links[1..];
      FitsBehind(other);
      other.FitsBehind(this);
      if other != this {
        DisjointSwap(links, other.links);
      }
      head, other.head := other.head, head;
      tail, other.tail := other.tail, tail;
      size, other.size := other.size, size;
      Adopt(others);
      other.Adopt(mine);
    }

    constructor Moved(other: SList<T>)
      requires other.Valid()
      modifies other, other.beforeHead`next
      ensures Valid() && other.Valid() && ledger == other.ledger && fresh(beforeHead)
      ensures links == [beforeHead] + old(other.links)[1..] && Contents() == old(other.Contents())
      ensures other.links == [other.beforeHead]
    {
      ledger := other.ledger;
      var sentinel := new Node<T>.Sentinel();
      beforeHead := sentinel;
      head, tail, size := other.head, other.tail, other.size;
      links := [sentinel];
      new;
      ghost var rest := other.links[1..];
      other.BehindSentinel();
      TypedBehind(other.links, beforeHead);
      other.head, other.tail, other.size := null, null, 0;
      Adopt(rest);
      other.Adopt([]);
    }

    /** The destructor: every node of the list, and its sentinel, is gone. */
    method Destroy()
      requires Valid()
      modifies this, ledger, beforeHead`next, links`live
      ensures links == [beforeHead] && beforeHead.value == None && Dead(old(links))
      ensures ledger.deleted == old(ledger.deleted) + old(size) && ledger.created == old(ledger.created)
    {
      Clear();
      beforeHead.Expire();
    }

    /** `temp.swap(*this)` where `temp` then goes out of scope: how the copying
        constructor and both assignments install what they have built. */
    method TakeOver(temp: SList<T>)
      requires Valid() && temp.Valid() && temp.ledger == ledger
      requires temp != this && Disjoint(links, temp.links)
      modifies this, temp, ledger, beforeHead`next, temp.beforeHead, links`live
      ensures Valid() && links == [beforeHead] + old(temp.links)[1..] && Contents() == old(temp.Contents())
      ensures Dead(old(links)[1..])
      ensures ledger.deleted == old(ledger.deleted) + old(size) && ledger.created == old(ledger.created)
    {
      temp.Swap(this);
      assert temp.beforeHead in temp.links;
      assert forall n <- links :: n != temp.beforeHead && n !in temp.links;
      label Swapped:
      temp.Destroy();
      assert forall k {:trigger links[k]} | 0 <= k < |links| :: links[k] in links;
      assert unchanged@Swapped(links);
    }

    /** The loop of the copy constructor: appends copies of the elements of
        `other` until all are copied, or making the node after `budget` many throws. */
    method PushBackAll(other: SList<T>, budget: nat) returns (thrown: bool)
      requires Valid() && other.Valid() && ledger == other.ledger && size == 0
      requires other != this && Disjoint(links, other.links)
      modifies this, ledger, beforeHead`next
      ensures Valid() && forall n <- links :: n == beforeHead || fresh(n)
      ensures thrown <==> budget < other.size
      ensures Contents() == other.Contents()[..if thrown then budget else other.size]
      ensures ledger.created == old(ledger.created) + size && ledger.deleted == old(ledger.deleted)
    {
      var copies, node := 0, other.head;
      while node != null
        invariant copies <= other.size && copies <= budget && node == Entry(other.links[copies + 1..], null)
        invariant Valid() && other.Valid() && Contents() == other.Contents()[..copies]
        invariant forall n <- links :: n == beforeHead || fresh(n)
        invariant beforeHead !in other.links && other.links == old(other.links) && other.size == old(other.size)
        invariant ledger.created == old(ledger.created) + copies && ledger.deleted == old(ledger.deleted)
        decreases other.size - copies
      {
        SegmentAt(other.links, null, copies + 1);
        assert At(size) in links && At(size) !in other.links;
        if copies == budget {
          EmplaceBack(node.Value(), true);
          return true;
        }
        EmplaceBack(node.Value(), false);
        node := node.Next();
        copies := copies + 1;
      }
      return false;
    }

    /** The copy constructor, when `budget` nodes can be made before one throws:
        null stands for the exception. */
    static method Copied(other: SList<T>, budget: nat) returns (made: SList?<T>)
      requires other.Valid()
      modifies other.ledger
      ensures made == null <==> budget < |other.Contents()|
      ensures made != null ==> fresh(made) && made.Valid() && made.ledger == other.ledger
      ensures made != null ==> (forall n <- made.links :: fresh(n)) && made.Contents() == other.Contents()
      ensures made != null ==>
                && other.ledger.created == old(other.ledger.created) + made.size
                && other.ledger.deleted == old(other.ledger.deleted)
      ensures made == null ==>
                && other.ledger.created == old(other.ledger.created) + budget
                && other.ledger.deleted == old(other.ledger.deleted) + budget
    {
      var temp := new SList(other.ledger);
      var thrown := temp.PushBackAll(other, budget);
      assert forall i {:trigger temp.links[i]} | 0 <= i < |temp.links| :: temp.links[i] in temp.links;
      if thrown {
        temp.Destroy();
        return null;
      }
      made := Installed(temp);
    }

    /** The end of these constructors: the new list, empty until now, gets the
        nodes of `temp`. */
    static method Installed(temp: SList<T>) returns (made: SList<T>)
      requires temp.Valid()
      modifies temp, temp.ledger, temp.beforeHead
      ensures fresh(made) && made.Valid() && made.ledger == temp.ledger
      ensures forall n <- made.links :: fresh(n) || n in old(temp.links)
      ensures made.Contents() == old(temp.Contents()) && made.size == old(temp.size)
      ensures temp.ledger.created == old(temp.ledger.created) && temp.ledger.deleted == old(temp.ledger.deleted)
    {
      made := new SList(temp.ledger);
      ghost var built := temp.links;
      made.TakeOver(temp);
      forall n <- made.links
        ensures fresh(n) || n in built
      {
        assert n == made.beforeHead || n in built[1..];
      }
    }

    /** The list of one node, already made. */
    constructor Around(node: Node<T>, ledger: Ledger)
      requires node.live && node.value.Some? && node.next == null
      ensures Valid() && this.ledger == ledger && fresh(beforeHead)
      ensures links == [beforeHead, node] && Contents() == [node.value.value]
    {
      this.ledger := ledger;
      var sentinel := new Node<T>.Sentinel();
      beforeHead := sentinel;
      head, tail, size := node, node, 1;
      links := [sentinel];
      new;
      Adopt([node]);
    }

    /** The constructor from one element: null stands for the exception. */
    static method Single(v: T, throws: bool, ledger: Ledger) returns (made: SList?<T>)
      modifies ledger
      ensures throws <==> made == null
      ensures throws ==> unchanged(ledger)
      ensures made != null ==> fresh(made) && made.Valid() && made.ledger == ledger
      ensures made != null ==> (forall n <- made.links :: fresh(n)) && made.Contents() == [v]
      ensures made != null ==> ledger.created == old(ledger.created) + 1 && ledger.deleted == old(ledger.deleted)
    {
      var node := Create(v, throws, ledger);
      if node == null {
        return null;
      }
      made := new SList.Around(node, ledger);
    }

    /** The initializer-list constructor, under the same `budget`. */
    static method Listed(values: seq<T>, budget: nat, ledger: Ledger) returns (made: SList?<T>)
      modifies ledger
      ensures made == null <==> budget < |values|
      ensures made != null ==> fresh(made) && made.Valid() && made.ledger == ledger
      ensures made != null ==> (forall n <- made.links :: fresh(n)) && made.Contents() == values
      ensures made != null ==>
                ledger.created == old(ledger.created) + |values| && ledger.deleted == old(ledger.deleted)
      ensures made == null ==>
                ledger.created == old(ledger.created) + budget && ledger.deleted == old(ledger.deleted) + budget
    {
      var temp := new SList(ledger);
      var k := 0;
      while k < |values|
        invariant k <= |values| && k <= budget
        invariant temp.Valid() && temp.Contents() == values[..k] && forall n <- temp.links :: fresh(n)
        invariant ledger.created == old(ledger.created) + k && ledger.deleted == old(ledger.deleted)
      {
        assert temp.At(temp.size) in temp.links;
        if k == budget {
          temp.EmplaceBack(values[k], true);
          assert forall i {:trigger temp.links[i]} | 0 <= i < |temp.links| :: temp.links[i] in temp.links;
          temp.Destroy();
          return null;
        }
        temp.EmplaceBack(values[k], false);
        k := k + 1;
      }
      made := Installed(temp);
    }

    /** Copy assignment: `false` stands for the exception. */
    method CopyAssign(other: SList<T>, budget: nat) returns (done: bool)
      requires Valid() && other.Valid() && ledger == other.ledger
      requires other == this || Disjoint(links, other.links)
      modifies this, ledger, beforeHead`next, links`live
      ensures Valid()
      ensures done <==> old(other.size) <= budget
      ensures !done ==> unchanged(this) && forall n <- links :: unchanged(n)
      ensures !done ==>
                ledger.created == old(ledger.created) + budget && ledger.deleted == old(ledger.deleted) + budget
      ensures done ==> Contents() == old(other.Contents()) && Dead(old(links)[1..])
      ensures done ==> forall n <- links :: n == beforeHead || fresh(n)
      ensures done ==>
                && ledger.created == old(ledger.created) + old(other.size)
                && ledger.deleted == old(ledger.deleted) + old(size)
    {
      var temp := Copied(other, budget);
      if temp == null {
        return false;
      }
      ghost var built := temp.links;
      assert temp.beforeHead in temp.links;
      TakeOver(temp);
      forall n <- links
        ensures n == beforeHead || fresh(n)
      {
        assert n == beforeHead || n in built[1..];
        assert n in built[1..] ==> n in built;
      }
      return true;
    }

    method MoveAssign(other: SList<T>)
      requires Valid() && other.Valid() && ledger == other.ledger
      requires other == this || Disjoint(links, other.links)
      modifies this, other, ledger, beforeHead`next, other.beforeHead`next, links`live
      ensures Valid() && other.Valid()
      ensures links == [beforeHead] + old(other.links)[1..] && Contents() == old(other.Contents())
      ensures other != this ==> other.links == [other.beforeHead] && Dead(old(links)[1..])
      ensures other != this ==> Disjoint(links, other.links)
      ensures ledger.created == old(ledger.created)
      ensures ledger.deleted == old(ledger.deleted) + if other == this then 0 else old(size)
    {
      ghost var theirs := other.links;
      other.BehindSentinel();
      assert other.beforeHead in theirs;
      var temp := new SList<T>.Moved(other);
      assert Disjoint(links, temp.links) by {
        forall n <- links
          ensures n !in temp.links
        {
          assert n in theirs[1..] ==> n in theirs;
        }
      }
      TakeOver(temp);
    }

    static method Equal(lhs: SList<T>, rhs: SList<T>) returns (equal: bool)
      requires lhs.Valid() && rhs.Valid()
      ensures equal <==> lhs.Contents() == rhs.Contents()
    {
      if lhs.size != rhs.size {
        return false;
      }
      var a, b := lhs.head, rhs.head;
      ghost var k := 0;
      while a != null
        invariant lhs.Valid() && rhs.Valid() && k <= lhs.size
        invariant a == Entry(lhs.links[k + 1..], null) && b == Entry(rhs.links[k + 1..], null)
        invariant lhs.Contents()[..k] == rhs.Contents()[..k]
        decreases lhs.size - k
      {
        SegmentAt(lhs.links, null, k + 1);
        SegmentAt(rhs.links, null, k + 1);
        if a.Value() != b.Value() {
          assert lhs.Contents()[k] != rhs.Contents()[k];
          return false;
        }
        a := a.Next();
        b := b.Next();
        k := k + 1;
      }
      assert lhs.Contents() == lhs.Contents()[..k] && rhs.Contents() == rhs.Contents()[..k];
      return true;
    }

    method Contains(v: T) returns (found: bool)
      requires Valid()
      ensures found <==> v in Contents()
    {
      var node := head;
      ghost var k := 0;
      while node != null
        invariant Valid() && k <= size && node == Entry(links[k + 1..], null)
        invariant v !in Contents()[..k]
        decreases size - k
      {
        SegmentAt(links, null, k + 1);
        if node.Value() == v {
          assert Contents()[k] == v;
          return true;
        }
        node := node.Next();
        k := k + 1;
      }
      assert Contents() == Contents()[..k];
      return false;
    }

    /** `operator<<`, with `show` for what an element writes. */
    method Print(show: T -> string) returns (stream: string)
      requires Valid()
      ensures stream == Joined(Contents(), show)
    {
      stream := "";
      var node := head;
      ghost var k := 0;
      while node != null
        invariant Valid() && k <= size && node == Entry(links[k + 1..], null)
        invariant stream + Joined(Contents()[k..], show) == Joined(Contents(), show)
        decreases size - k
      {
        SegmentAt(links, null, k + 1);
        if k + 1 < size {
          ChainAcyclic(links, k + 1, size);
        }
        stream := stream + show(node.Value());
        if node != tail {
          stream := stream + ", ";
        }
        assert Contents()[k..] == [Contents()[k]] + Contents()[k + 1..];
        node := node.Next();
        k := k + 1;
      }
    }

    /** `before_begin()` advanced `k` times: an iterator, null for `end()`. */
    method Advance(k: nat) returns (it: Node?<T>)
      requires Valid() && k <= |links|
      ensures it == if k < |links| then links[k] else null
    {
      it := beforeHead;
      var steps := 0;
      while steps < k
        invariant Valid() && steps <= k && it == if steps < |links| then links[steps] else null
      {
        SegmentAt(links, null, steps);
        it := it.Next();
        steps := steps + 1;
      }
    }

    method Front() returns (v: T)
      requires Valid() && Contents() != []
      ensures v == Contents()[0]
    {
      SegmentAt(links, null, 1);
      v := head.Value();
    }

    method Back() returns (v: T)
      requires Valid() && Contents() != []
      ensures v == Contents()[|Contents()| - 1]
    {
      SegmentAt(links, null, size);
      v := tail.Value();
    }
  }

  /** What two printed parts become together, and what one element is alone. */
  lemma {:induction false} JoinedParts<T>(a: seq<T>, b: seq<T>, show: T -> string)
    requires a != [] && b != []
    ensures Joined(a + b, show) == Joined(a, show) + ", " + Joined(b, show)
    ensures Joined([a[0]], show) == show(a[0]) && Joined<T>([], show) == ""
  {
    if |a| == 1 {
      assert (a + b)[1..] == b;
    } else {
      assert (a + b)[1..] == a[1..] + b;
      JoinedParts(a[1..], b, show);
      var first, rest, last := show(a[0]), Joined(a[1..], show), Joined(b, show);
      assert first + ", " + (rest + ", " + last) == first + ", " + rest + ", " + last;
    }
  }

  /** The elements in order with ", " between each two neighbours. */
  function Joined<T>(elements: seq<T>, show: T -> string): string {
    if elements == [] then ""
    else if |elements| == 1 then show(elements[0])
    else show(elements[0]) + ", " + Joined(elements[1..], show)
  }
}
