/** Whole runs of a program that owns any number of lists: every run of list
    operations computes what the same run computes on plain sequences, and at
    every moment the nodes made and not yet deleted are exactly those the lists
    still count. */
module SListRuns {
  import opened ListNodes
  import opened SListModel

  /** What a program may do to one list. A flag or a budget says where the
      construction of an element throws. */
  datatype ListOp<T> =
    | PushBack(v: T, throws: bool)
    | PushFront(v: T, throws: bool)
    | InsertAfter(k: nat, v: T, throws: bool)
    | PopBack
    | PopFront
    | EraseAfter(k: nat)
    | EraseRange(first: nat, last: nat)
    | Clear

  datatype Op<T> =
    | Declare
    | One(v: T, throws: bool)
    | List(values: seq<T>, budget: nat)
    | Copy(j: nat, budget: nat)
    | Move(j: nat)
    | Destroy(i: nat)
    | On(i: nat, op: ListOp<T>)
    | CopyAssign(i: nat, j: nat, budget: nat)
    | MoveAssign(i: nat, j: nat)
    | Swap(i: nat, j: nat)

  /** Positions count increments from `before_begin()`: k is the place right
      before the element of index k, and one past the last of them is `end()`. */
  predicate LegalOn<T>(s: seq<T>, op: ListOp<T>) {
    match op
    case InsertAfter(k, _, _) => k <= |s|
    case EraseAfter(k) => k < |s|
    case EraseRange(first, last) => first < last <= |s| + 1
    case _ => true
  }

  function EffectOn<T>(s: seq<T>, op: ListOp<T>): seq<T>
    requires LegalOn(s, op)
  {
    match op
    case PushBack(v, throws) => if throws then s else s + [v]
    case PushFront(v, throws) => if throws then s else [v] + s
    case InsertAfter(k, v, throws) => if throws then s else s[..k] + [v] + s[k..]
    case PopBack => if s == [] then s else s[..|s| - 1]
    case PopFront => if s == [] then s else s[1..]
    case EraseAfter(k) => s[..k] + s[k + 1..]
    case EraseRange(first, last) => s[..first] + s[last - 1..]
    case Clear => []
  }

  predicate Legal<T>(lists: seq<seq<T>>, op: Op<T>) {
    match op
    case Declare => true
    case One(_, _) => true
    case List(_, _) => true
    case Copy(j, _) => j < |lists|
    case Move(j) => j < |lists|
    case Destroy(i) => i < |lists|
    case On(i, op) => i < |lists| && LegalOn(lists[i], op)
    case CopyAssign(i, j, _) => i < |lists| && j < |lists|
    case MoveAssign(i, j) => i < |lists| && j < |lists|
    case Swap(i, j) => i < |lists| && j < |lists|
  }

  function Effect<T>(lists: seq<seq<T>>, op: Op<T>): seq<seq<T>>
    requires Legal(lists, op)
  {
    match op
    case Declare => lists + [[]]
    case One(v, throws) => if throws then lists else lists + [[v]]
    case List(values, budget) => if budget < |values| then lists else lists + [values]
    case Copy(j, budget) => if budget < |lists[j]| then lists else lists + [lists[j]]
    case Move(j) => lists[j := []] + [lists[j]]
    case Destroy(i) => lists[..i] + lists[i + 1..]
    case On(i, op) => lists[i := EffectOn(lists[i], op)]
    case CopyAssign(i, j, budget) => if budget < |lists[j]| then lists else lists[i := lists[j]]
    case MoveAssign(i, j) => if i == j then lists else lists[i := lists[j]][j := []]
    case Swap(i, j) => lists[i := lists[j]][j := lists[i]]
  }

  predicate LegalRun<T>(lists: seq<seq<T>>, ops: seq<Op<T>>)
    decreases |ops|
  {
    ops == [] || (Legal(lists, ops[0]) && LegalRun(Effect(lists, ops[0]), ops[1..]))
  }

  function EffectRun<T>(lists: seq<seq<T>>, ops: seq<Op<T>>): seq<seq<T>>
    requires LegalRun(lists, ops)
    decreases |ops|
  {
    if ops == [] then lists else EffectRun(Effect(lists, ops[0]), ops[1..])
  }

  /** Element by element: an insertion moves what is behind it one on. */
  lemma Inserts<T>(s: seq<T>, op: ListOp<T>)
    requires LegalOn(s, op) && Grows(op)
    ensures op.throws ==> EffectOn(s, op) == s
    ensures !op.throws ==>
              var at := if op.PushBack? then |s| else if op.PushFront? then 0 else op.k;
              var t := EffectOn(s, op);
              && |t| == |s| + 1 && t[at] == op.v
              && forall i | 0 <= i < |s| :: s[i] == t[if i < at then i else i + 1]
  {
  }

  /** And a removal of `count` elements moves what is behind them that many back. */
  lemma Removes<T>(s: seq<T>, op: ListOp<T>)
    requires LegalOn(s, op) && !Grows(op)
    ensures var (at, count) :=
              match op
              case PopBack => if s == [] then (0, 0) else (|s| - 1, 1)
              case PopFront => if s == [] then (0, 0) else (0, 1)
              case EraseAfter(k) => (k, 1)
              case EraseRange(first, last) => (first, last - 1 - first)
              case _ => (0, |s|);
            var t := EffectOn(s, op);
            && |t| + count == |s|
            && forall i | 0 <= i < |t| :: t[i] == s[if i < at then i else i + count]
  {
  }

  /** List by list: what an operation on lists does to each of them. */
  lemma ListsAfter<T>(lists: seq<seq<T>>, op: Op<T>)
    requires Legal(lists, op)
    ensures var after := Effect(lists, op);
            match op
            case Declare => |after| == |lists| + 1 && after[|lists|] == [] && after[..|lists|] == lists
            case One(v, throws) => if throws then after == lists else after == lists + [[v]]
            case List(values, budget) => if |values| <= budget then after == lists + [values] else after == lists
            case Copy(j, budget) => if |lists[j]| <= budget then after == lists + [lists[j]] else after == lists
            case Move(j) =>
              && |after| == |lists| + 1 && after[|lists|] == lists[j] && after[j] == []
              && forall k | 0 <= k < |lists| && k != j :: after[k] == lists[k]
            case Destroy(i) =>
              |after| == |lists| - 1 && forall k | 0 <= k < |after| :: after[k] == lists[if k < i then k else k + 1]
            case On(i, op) =>
              && |after| == |lists| && after[i] == EffectOn(lists[i], op)
              && forall k | 0 <= k < |lists| && k != i :: after[k] == lists[k]
            case CopyAssign(i, j, budget) =>
              && |after| == |lists| && after[i] == (if |lists[j]| <= budget then lists[j] else lists[i])
              && forall k | 0 <= k < |lists| && k != i :: after[k] == lists[k]
            case MoveAssign(i, j) =>
              && |after| == |lists| && after[i] == lists[j] && (i != j ==> after[j] == [])
              && forall k | 0 <= k < |lists| && k != i && k != j :: after[k] == lists[k]
            case Swap(i, j) =>
              && |after| == |lists| && after[i] == lists[j] && after[j] == lists[i]
              && forall k | 0 <= k < |lists| && k != i && k != j :: after[k] == lists[k]
  {
  }

  /** A run is its operations one after the other: with one more it goes on
      from where it was. */
  lemma {:induction false} RunGoesOn<T>(lists: seq<seq<T>>, ops: seq<Op<T>>, op: Op<T>)
    requires LegalRun(lists, ops) && Legal(EffectRun(lists, ops), op)
    ensures EffectRun(lists, []) == lists
    ensures LegalRun(lists, ops + [op]) && EffectRun(lists, ops + [op]) == Effect(EffectRun(lists, ops), op)
    decreases |ops|
  {
    if ops == [] {
      assert ops + [op] == [op] && [op][1..] == [];
    } else {
      assert (ops + [op])[1..] == ops[1..] + [op];
      RunGoesOn(Effect(lists, ops[0]), ops[1..], op);
    }
  }

  /** How many elements the lists hold together. */
  function Total<T>(lists: seq<seq<T>>): nat {
    if lists == [] then 0 else |lists[0]| + Total(lists[1..])
  }

  lemma {:induction false} TotalJoin<T>(a: seq<seq<T>>, b: seq<seq<T>>)
    ensures Total(a + b) == Total(a) + Total(b)
  {
    if a == [] {
      assert a + b == b;
    } else {
      assert (a + b)[1..] == a[1..] + b;
      TotalJoin(a[1..], b);
    }
  }

  lemma {:induction false} TotalUpdate<T>(lists: seq<seq<T>>, i: nat, s: seq<T>)
    requires i < |lists|
    ensures Total(lists[i := s]) == Total(lists) - |lists[i]| + |s|
  {
    if i > 0 {
      assert lists[i := s][1..] == lists[1..][i - 1 := s];
      TotalUpdate(lists[1..], i - 1, s);
    }
  }

  lemma TotalUpdatePair<T>(lists: seq<seq<T>>, i: nat, a: seq<T>, j: nat, b: seq<T>)
    requires i < |lists| && j < |lists| && (i == j ==> a == b)
    ensures Total(lists[i := a][j := b]) - |a| - (if i == j then 0 else |b|) ==
            Total(lists) - |lists[i]| - (if i == j then 0 else |lists[j]|)
  {
    TotalUpdate(lists, i, a);
    TotalUpdate(lists[i := a], j, b);
  }

  lemma TotalRemove<T>(lists: seq<seq<T>>, i: nat)
    requires i < |lists|
    ensures Total(lists[..i] + lists[i + 1..]) == Total(lists) - |lists[i]|
  {
    assert lists == lists[..i] + ([lists[i]] + lists[i + 1..]);
    TotalJoin(lists[..i], [lists[i]] + lists[i + 1..]);
    TotalJoin(lists[..i], lists[i + 1..]);
  }

  predicate Grows<T>(op: ListOp<T>) {
    op.PushBack? || op.PushFront? || op.InsertAfter?
  }

  /** One operation on one list, as a program writes it: positions are reached
      by advancing iterators. */
  method Perform<T(==)>(l: SList<T>, op: ListOp<T>)
    requires l.Valid() && LegalOn(l.Contents(), op)
    modifies l, l.ledger, l.links
    ensures l.Valid() && l.Contents() == EffectOn(old(l.Contents()), op)
    ensures forall n <- l.links :: n in old(l.links) || fresh(n)
    ensures l.ledger.created - l.ledger.deleted - l.size == old(l.ledger.created - l.ledger.deleted - l.size)
  {
    if Grows(op) {
      Grow(l, op);
    } else {
      Shrink(l, op);
    }
  }

  method Grow<T(==)>(l: SList<T>, op: ListOp<T>)
    requires l.Valid() && LegalOn(l.Contents(), op) && Grows(op)
    modifies l, l.ledger, l.links
    ensures l.Valid() && l.Contents() == EffectOn(old(l.Contents()), op)
    ensures forall n <- l.links :: n in old(l.links) || fresh(n)
    ensures l.ledger.created - l.ledger.deleted - l.size == old(l.ledger.created - l.ledger.deleted - l.size)
  {
    match op
    case PushBack(v, throws) => l.EmplaceBack(v, throws);
    case PushFront(v, throws) => l.EmplaceFront(v, throws);
    case InsertAfter(k, v, throws) =>
      var pos := l.Advance(k);
      var it := l.EmplaceAfter(pos, k, v, throws);
  }

  method Shrink<T(==)>(l: SList<T>, op: ListOp<T>)
    requires l.Valid() && LegalOn(l.Contents(), op) && !Grows(op)
    modifies l, l.ledger, l.links
    ensures l.Valid() && l.Contents() == EffectOn(old(l.Contents()), op)
    ensures forall n <- l.links :: n in old(l.links)
    ensures l.ledger.created - l.ledger.deleted - l.size == old(l.ledger.created - l.ledger.deleted - l.size)
  {
    match op
    case PopBack => l.PopBack();
    case PopFront => l.PopFront();
    case Clear => l.Clear();
    case EraseAfter(k) => Erase(l, op);
    case EraseRange(first, last) => Erase(l, op);
  }

  method Erase<T(==)>(l: SList<T>, op: ListOp<T>)
    requires l.Valid() && LegalOn(l.Contents(), op) && (op.EraseAfter? || op.EraseRange?)
    modifies l, l.ledger, l.links
    ensures l.Valid() && l.Contents() == EffectOn(old(l.Contents()), op)
    ensures forall n <- l.links :: n in old(l.links)
    ensures l.ledger.created - l.ledger.deleted - l.size == old(l.ledger.created - l.ledger.deleted - l.size)
  {
    if op.EraseAfter? {
      var pos := l.Advance(op.k);
      var it := l.EraseAfter(pos, op.k);
    } else {
      EraseBetween(l, op.first, op.last);
    }
  }

  method EraseBetween<T(==)>(l: SList<T>, first: nat, last: nat)
    requires l.Valid() && first < last <= l.size + 1
    modifies l, l.ledger, l.links
    ensures l.Valid() && l.Contents() == old(l.Contents())[..first] + old(l.Contents())[last - 1..]
    ensures forall n <- l.links :: n in old(l.links)
    ensures l.ledger.created - l.ledger.deleted - l.size == old(l.ledger.created - l.ledger.deleted - l.size)
  {
    var pos := l.Advance(first);
    var end := l.Advance(last);
    var it := l.EraseRange(pos, end, first, last);
  }

  method Assign<T(==)>(l: SList<T>, other: SList<T>, budget: nat)
    requires l.Valid() && other.Valid() && l.ledger == other.ledger && (other == l || Disjoint(l.links, other.links))
    modifies l, l.ledger, l.links
    ensures l.Valid() && l.Contents() == if budget < old(other.size) then old(l.Contents()) else old(other.Contents())
    ensures forall n <- l.links :: n in old(l.links) || fresh(n)
    ensures l.ledger.created - l.ledger.deleted - l.size == old(l.ledger.created - l.ledger.deleted - l.size)
  {
    assert l.beforeHead in l.links;
    var done := l.CopyAssign(other, budget);
  }

  /** A list none of whose parts changed is as well formed as it was. */
  twostate lemma Untouched<T>(l: SList<T>)
    requires old(l.Valid()) && unchanged(l) && forall n <- l.links :: unchanged(n)
    ensures l.Valid()
  {
    assert forall m {:trigger l.links[m]} | 0 <= m < |l.links| :: l.links[m] in l.links;
    assert unchanged(l.links);
  }

  ghost function AllLinks<T>(lists: seq<SList<T>>): (all: seq<seq<Node<T>>>)
    reads lists
    ensures |all| == |lists|
    ensures forall i {:trigger all[i]} | 0 <= i < |lists| :: all[i] == lists[i].links
  {
    seq(|lists|, i requires 0 <= i < |lists| reads lists => lists[i].links)
  }

  ghost predicate Apart<T>(all: seq<seq<Node<T>>>) {
    forall i, j | 0 <= i < |all| && 0 <= j < |all| && i != j :: Disjoint(all[i], all[j])
  }

  /** Lists that lie apart are different lists: each has a sentinel. */
  lemma DistinctOwners<T>(all: seq<seq<Node<T>>>, i: nat, j: nat)
    requires Apart(all) && i < |all| && j < |all| && i != j && all[i] != []
    ensures Disjoint(all[i], all[j]) && Disjoint(all[j], all[i]) && all[i] != all[j]
  {
    assert all[i][0] in all[i];
  }

  lemma RemovedFrom<T>(lists: seq<SList<T>>, i: nat)
    requires i < |lists| && forall l <- lists :: l.links != [] && Typed(l.links)
    ensures AllLinks(lists[..i] + lists[i + 1..]) == AllLinks(lists)[..i] + AllLinks(lists)[i + 1..]
    ensures Views(lists[..i] + lists[i + 1..]) == Views(lists)[..i] + Views(lists)[i + 1..]
  {
  }

  lemma ApartAdd<T>(all: seq<seq<Node<T>>>, links: seq<Node<T>>)
    requires Apart(all) && forall i {:trigger all[i]} | 0 <= i < |all| :: Disjoint(all[i], links)
    ensures Apart(all + [links])
  {
  }

  lemma ApartRemove<T>(all: seq<seq<Node<T>>>, i: nat)
    requires Apart(all) && i < |all|
    ensures Apart(all[..i] + all[i + 1..])
  {
  }

  /** One list now lies in other nodes: its own former ones, or new ones. */
  lemma ApartUpdate<T>(all: seq<seq<Node<T>>>, i: nat, links: seq<Node<T>>)
    requires Apart(all) && i < |all|
    requires forall k {:trigger all[k]} | 0 <= k < |all| && k != i :: Disjoint(all[k], links)
    ensures Apart(all[i := links])
  {
  }

  lemma ApartUpdatePair<T>(all: seq<seq<Node<T>>>, i: nat, a: seq<Node<T>>, j: nat, b: seq<Node<T>>)
    requires Apart(all) && i < |all| && j < |all| && if i == j then a == b else Disjoint(a, b)
    requires forall k {:trigger all[k]} | 0 <= k < |all| && k != i && k != j ::
               Disjoint(all[k], a) && Disjoint(all[k], b)
    ensures Apart(all[i := a][j := b])
  {
  }

  class Program<T(==)> {
    const ledger: Ledger
    var lists: seq<SList<T>>
    ghost var repr: set<object>

    constructor ()
      ensures Valid() && View() == [] && fresh(repr)
    {
      ledger := new Ledger();
      lists := [];
      repr := {this, ledger};
    }

    /** What the lists hold. */
    ghost function View(): (view: seq<seq<T>>)
      requires forall l <- lists :: l.links != [] && Typed(l.links)
      reads this, lists
      ensures |view| == |lists|
      ensures forall i {:trigger view[i]} | 0 <= i < |lists| :: view[i] == Elements(lists[i].links)
    {
      Views(lists)
    }

    /** `repr` has the list and its links. */
    ghost predicate Inside(l: SList<T>)
      reads this, l
    {
      l in repr && forall m {:trigger l.links[m]} | 0 <= m < |l.links| :: l.links[m] in repr
    }

    /** Every list is well formed and no two share a link. */
    ghost predicate Owned()
      reads *
    {
      && this in repr && ledger in repr
      && (forall i {:trigger lists[i]} | 0 <= i < |lists| ::
            lists[i].Valid() && lists[i].ledger == ledger && Inside(lists[i]))
      && Apart(AllLinks(lists))
    }

    ghost predicate Valid()
      reads *
    {
      && Owned()
      && ledger.created == ledger.deleted + Total(View())
    }

    /** The lists other than i are other objects and lie in other links. */
    lemma Others(i: nat)
      requires Owned() && i < |lists|
      ensures forall k {:trigger lists[k]} | 0 <= k < |lists| && k != i ::
                && lists[k] != lists[i]
                && Disjoint(lists[i].links, lists[k].links) && Disjoint(lists[k].links, lists[i].links)
    {
      forall k | 0 <= k < |lists| && k != i
        ensures lists[k] != lists[i]
        ensures Disjoint(lists[i].links, lists[k].links) && Disjoint(lists[k].links, lists[i].links)
      {
        DistinctOwners(AllLinks(lists), i, k);
      }
    }

    /** After an operation on list i alone, all lists are in order. */
    twostate lemma Settled(i: nat)
      requires old(Owned()) && lists == old(lists) && i < |lists| && lists[i].Valid()
      requires old(repr) <= repr && Inside(lists[i])
      requires forall k {:trigger lists[k]} | 0 <= k < |lists| && k != i ::
                 unchanged(lists[k]) && forall n <- lists[k].links :: unchanged(n)
      requires forall n <- lists[i].links :: n in old(lists[i].links) || fresh(n)
      ensures Owned() && View() == old(View())[i := lists[i].Contents()]
      ensures Total(View()) == Total(old(View())) - old(lists[i].size) + lists[i].size
    {
      var l, all, view := lists[i], old(AllLinks(lists)), old(View());
      forall k | 0 <= k < |lists| && k != i
        ensures lists[k].Valid() && lists[k].links == all[k] && Disjoint(all[k], l.links)
      {
        DistinctOwners(all, k, i);
        var links := lists[k].links;
        assert forall m {:trigger links[m]} | 0 <= m < |links| :: links[m] in links;
        assert unchanged(links);
      }
      ApartUpdate(all, i, l.links);
      assert AllLinks(lists) == all[i := l.links];
      TotalUpdate(view, i, l.Contents());
      assert View() == view[i := l.Contents()];
    }

    /** Lists other than those of `pair` are as they were, apart from those two. */
    twostate lemma BystandersKept(pair: (nat, nat))
      requires old(Owned()) && lists == old(lists) && pair.0 < |lists| && pair.1 < |lists|
      requires forall k {:trigger lists[k]} | 0 <= k < |lists| && k != pair.0 && k != pair.1 ::
                 unchanged(lists[k]) && forall n <- lists[k].links :: unchanged(n)
      requires forall n <- lists[pair.0].links :: n in old(lists[pair.0].links) || n in old(lists[pair.1].links)
      requires forall n <- lists[pair.1].links :: n in old(lists[pair.0].links) || n in old(lists[pair.1].links)
      ensures forall k {:trigger lists[k]} | 0 <= k < |lists| && k != pair.0 && k != pair.1 ::
                lists[k].Valid() && lists[k].links == old(lists[k].links) && lists[k].Contents() == old(lists[k].Contents())
                && Disjoint(old(lists[k].links), lists[pair.0].links) && Disjoint(old(lists[k].links), lists[pair.1].links)
    {
      var (i, j) := pair;
      var all := old(AllLinks(lists));
      forall k | 0 <= k < |lists| && k != i && k != j
        ensures lists[k].Valid() && lists[k].links == all[k] && lists[k].Contents() == old(lists[k].Contents())
        ensures Disjoint(all[k], lists[i].links) && Disjoint(all[k], lists[j].links)
      {
        DistinctOwners(all, k, i);
        DistinctOwners(all, k, j);
        var links := lists[k].links;
        assert forall m {:trigger links[m]} | 0 <= m < |links| :: links[m] in links;
        assert unchanged(links);
      }
    }

    /** After the two lists of `pair` (or the one, twice) exchanged nodes, all
        lists are in order. */
    twostate lemma SettledPair(pair: (nat, nat))
      requires old(Owned()) && lists == old(lists) && pair.0 < |lists| && pair.1 < |lists|
      requires old(repr) == repr
      requires lists[pair.0].Valid() && lists[pair.1].Valid()
      requires pair.0 != pair.1 ==> Disjoint(lists[pair.0].links, lists[pair.1].links)
      requires forall k {:trigger lists[k]} | 0 <= k < |lists| && k != pair.0 && k != pair.1 ::
                 unchanged(lists[k]) && forall n <- lists[k].links :: unchanged(n)
      requires forall n <- lists[pair.0].links :: n in old(lists[pair.0].links) || n in old(lists[pair.1].links)
      requires forall n <- lists[pair.1].links :: n in old(lists[pair.0].links) || n in old(lists[pair.1].links)
      ensures Owned() && View() == old(View())[pair.0 := lists[pair.0].Contents()][pair.1 := lists[pair.1].Contents()]
      ensures Total(View()) - lists[pair.0].size - (if pair.0 == pair.1 then 0 else lists[pair.1].size) ==
              Total(old(View())) - old(lists[pair.0].size) - (if pair.0 == pair.1 then 0 else old(lists[pair.1].size))
    {
      var (i, j) := pair;
      assert old(Inside(lists[i])) && old(Inside(lists[j]));
      forall l | l == lists[i] || l == lists[j]
        ensures Inside(l)
      {
        assert forall m {:trigger l.links[m]} | 0 <= m < |l.links| :: l.links[m] in l.links;
      }
      var all, view := old(AllLinks(lists)), old(View());
      BystandersKept((i, j));
      var a, b := lists[i], lists[j];
      ApartUpdatePair(all, i, a.links, j, b.links);
      assert AllLinks(lists) == all[i := a.links][j := b.links];
      TotalUpdatePair(view, i, a.Contents(), j, b.Contents());
      assert View() == view[i := a.Contents()][j := b.Contents()];
    }

    ghost method Absorb(l: SList<T>)
      modifies this`repr
      ensures old(repr) <= repr && Inside(l)
      ensures forall o <- repr :: o in old(repr) || o == l || o in l.links
    {
      repr := repr + {l} + set m | 0 <= m < |l.links| :: l.links[m];
    }

    method Update(i: nat, op: ListOp<T>)
      requires Valid() && i < |lists| && LegalOn(View()[i], op)
      modifies repr
      ensures old(repr) <= repr && fresh(repr - old(repr))
      ensures Valid() && View() == old(View()[i := EffectOn(View()[i], op)])
    {
      Others(i);
      Perform(lists[i], op);
      Absorb(lists[i]);
      Settled(i);
    }

    method AddDeclared()
      requires Valid()
      modifies repr
      ensures old(repr) <= repr && fresh(repr - old(repr))
      ensures Valid() && View() == old(View()) + [[]]
    {
      var l := new SList(ledger);
      Add(l);
    }

    method AddOne(v: T, throws: bool)
      requires Valid()
      modifies repr
      ensures old(repr) <= repr && fresh(repr - old(repr))
      ensures Valid() && View() == if throws then old(View()) else old(View()) + [[v]]
    {
      var l := SList.Single(v, throws, ledger);
      if l != null {
        Add(l);
      }
    }

    method AddListed(values: seq<T>, budget: nat)
      requires Valid()
      modifies repr
      ensures old(repr) <= repr && fresh(repr - old(repr))
      ensures Valid()
      ensures View() == if budget < |values| then old(View()) else old(View()) + [values]
    {
      var l := SList.Listed(values, budget, ledger);
      if l != null {
        Add(l);
      }
    }

    method AddCopied(j: nat, budget: nat)
      requires Valid() && j < |lists|
      modifies repr
      ensures old(repr) <= repr && fresh(repr - old(repr))
      ensures Valid()
      ensures View() == if budget < |old(View())[j]| then old(View()) else old(View()) + [old(View())[j]]
    {
      var l := SList.Copied(lists[j], budget);
      if l != null {
        Add(l);
      }
    }

    /** A list enters the program: it shares no node with the others, and the
        ledger has already counted its nodes. */
    method Add(l: SList<T>)
      requires Owned() && l.Valid() && l.ledger == ledger
      requires forall i {:trigger lists[i]} | 0 <= i < |lists| :: Disjoint(lists[i].links, l.links)
      requires ledger.created == ledger.deleted + Total(View()) + l.size
      modifies this
      ensures Valid() && View() == old(View()) + [l.Contents()]
      ensures old(repr) <= repr && forall o <- repr :: o in old(repr) || o == l || o in l.links
    {
      TotalJoin(View(), [l.Contents()]);
      Admit(l);
    }

    method Admit(l: SList<T>)
      requires Owned() && l.Valid() && l.ledger == ledger
      requires forall i {:trigger lists[i]} | 0 <= i < |lists| :: Disjoint(lists[i].links, l.links)
      modifies this
      ensures Owned() && View() == old(View()) + [l.Contents()]
      ensures old(repr) <= repr && forall o <- repr :: o in old(repr) || o == l || o in l.links
    {
      ApartAdd(AllLinks(lists), l.links);
      Absorb(l);
      lists := lists + [l];
      assert AllLinks(lists) == old(AllLinks(lists)) + [l.links];
      assert View() == old(View()) + [l.Contents()];
    }

    /** What holds while list i is already destroyed but still named. */
    ghost predicate OwnedBut(i: nat)
      reads *
    {
      && i < |lists|
      && this in repr && ledger in repr
      && (forall k {:trigger lists[k]} | 0 <= k < |lists| && k != i ::
            lists[k].Valid() && lists[k].ledger == ledger && Inside(lists[k]))
      && lists[i].links != [] && Typed(lists[i].links)
      && Apart(AllLinks(lists))
    }

    method DestroyAt(i: nat)
      requires Valid() && i < |lists|
      modifies ledger, lists[i], lists[i].links
      ensures OwnedBut(i) && View() == old(View())[i := []]
      ensures ledger.created - ledger.deleted == old(ledger.created - ledger.deleted) - |old(View())[i]|
    {
      var l := lists[i];
      ghost var all, view := AllLinks(lists), View();
      l.Destroy();
      forall k | 0 <= k < |lists| && k != i
        ensures lists[k].Valid() && lists[k].links == all[k] && Disjoint(all[k], l.links)
      {
        DistinctOwners(all, k, i);
        Untouched(lists[k]);
        assert l.beforeHead in all[i];
      }
      ApartUpdate(all, i, l.links);
      assert AllLinks(lists) == all[i := l.links];
      assert View() == view[i := []];
    }

    method Drop(i: nat)
      requires OwnedBut(i)
      modifies this`lists
      ensures Owned() && View() == old(View())[..i] + old(View())[i + 1..]
    {
      ApartRemove(AllLinks(lists), i);
      RemovedFrom(lists, i);
      lists := lists[..i] + lists[i + 1..];
    }

    method Remove(i: nat)
      requires Valid() && i < |lists|
      modifies repr
      ensures old(repr) <= repr && fresh(repr - old(repr))
      ensures Valid() && View() == old(View())[..i] + old(View())[i + 1..]
    {
      ghost var view := View();
      TotalRemove(view, i);
      assert view[i := []][..i] + view[i := []][i + 1..] == view[..i] + view[i + 1..];
      DestroyAt(i);
      Drop(i);
    }

    method AssignCopy(i: nat, j: nat, budget: nat)
      requires Valid() && i < |lists| && j < |lists|
      modifies repr
      ensures old(repr) <= repr && fresh(repr - old(repr))
      ensures Valid()
      ensures View() == if budget < |old(View())[j]| then old(View()) else old(View())[i := old(View())[j]]
    {
      ghost var view := View();
      assert view[i := view[i]] == view;
      AssignInto(i, j, budget);
    }

    /** What copy assignment does to ownership, before counting. */
    method AssignInto(i: nat, j: nat, budget: nat)
      requires Owned() && i < |lists| && j < |lists|
      modifies repr
      ensures old(repr) <= repr && fresh(repr - old(repr)) && Owned()
      ensures View() == old(View())[i := if budget < |old(View())[j]| then old(View())[i] else old(View())[j]]
      ensures ledger.created - ledger.deleted - Total(View()) == old(ledger.created - ledger.deleted - Total(View()))
    {
      Others(i);
      Assign(lists[i], lists[j], budget);
      Absorb(lists[i]);
      Settled(i);
    }

    /** The move constructor applied to list j; the new list is not ours yet. */
    method MoveOut(j: nat) returns (l: SList<T>)
      requires Valid() && j < |lists|
      modifies lists[j], lists[j].links
      ensures Owned() && l.Valid() && l.ledger == ledger && fresh(l)
      ensures View() == old(View())[j := []] && l.Contents() == old(View())[j]
      ensures Total(View()) + l.size == Total(old(View()))
      ensures forall n <- l.links :: n in repr || fresh(n)
      ensures forall i {:trigger lists[i]} | 0 <= i < |lists| :: Disjoint(lists[i].links, l.links)
    {
      Others(j);
      var from := lists[j];
      ghost var theirs := from.links;
      from.BehindSentinel();
      assert from.beforeHead in theirs;
      l := new SList.Moved(from);
      Settled(j);
      assert forall n <- l.links :: n == l.beforeHead || n in theirs[1..];
      assert forall n <- theirs[1..] :: n in theirs && n in repr;
      forall i | 0 <= i < |lists|
        ensures Disjoint(lists[i].links, l.links)
      {
        assert lists[i].links == old(lists[i].links) || i == j;
      }
    }

    method AddMoved(j: nat)
      requires Valid() && j < |lists|
      modifies repr
      ensures old(repr) <= repr && fresh(repr - old(repr))
      ensures Valid() && View() == old(View())[j := []] + [old(View())[j]]
    {
      var l := MoveOut(j);
      Add(l);
    }

    method Exchange(i: nat, j: nat)
      requires Valid() && i < |lists| && j < |lists|
      modifies repr
      ensures repr == old(repr)
      ensures Valid() && View() == old(View())[i := old(View())[j]][j := old(View())[i]]
    {
      Others(i);
      Others(j);
      var a, b := lists[i], lists[j];
      a.Swap(b);
      SettledPair((i, j));
    }

    method AssignMove(i: nat, j: nat)
      requires Valid() && i < |lists| && j < |lists|
      modifies repr
      ensures repr == old(repr)
      ensures Valid()
      ensures View() == if i == j then old(View()) else old(View())[i := old(View())[j]][j := []]
    {
      Others(i);
      Others(j);
      lists[i].MoveAssign(lists[j]);
      SettledPair((i, j));
    }

    method Apply(op: Op<T>)
      requires Valid() && Legal(View(), op)
      modifies repr
      ensures old(repr) <= repr && fresh(repr - old(repr))
      ensures Valid() && View() == Effect(old(View()), op)
    {
      match op
      case Declare => AddDeclared();
      case One(v, throws) => AddOne(v, throws);
      case List(values, budget) => AddListed(values, budget);
      case Copy(j, budget) => AddCopied(j, budget);
      case Move(j) => AddMoved(j);
      case Destroy(i) => Remove(i);
      case On(i, op) => Update(i, op);
      case CopyAssign(i, j, budget) => AssignCopy(i, j, budget);
      case MoveAssign(i, j) => AssignMove(i, j);
      case Swap(i, j) => Exchange(i, j);
    }

    /** Every run, from any state the program can be in. */
    method Run(ops: seq<Op<T>>)
      requires Valid() && LegalRun(View(), ops)
      modifies repr
      ensures old(repr) <= repr && fresh(repr - old(repr))
      ensures Valid() && View() == EffectRun(old(View()), ops)
      ensures ledger.created - ledger.deleted == Total(EffectRun(old(View()), ops))
    {
      var k := 0;
      while k < |ops|
        invariant k <= |ops| && Valid() && LegalRun(View(), ops[k..])
        invariant old(repr) <= repr && fresh(repr - old(repr))
        invariant EffectRun(View(), ops[k..]) == EffectRun(old(View()), ops)
      {
        assert ops[k..][1..] == ops[k + 1..];
        Apply(ops[k]);
        k := k + 1;
      }
    }
  }

  ghost function Views<T>(lists: seq<SList<T>>): (view: seq<seq<T>>)
    requires forall l <- lists :: l.links != [] && Typed(l.links)
    reads lists
    ensures |view| == |lists|
    ensures forall i {:trigger view[i]} | 0 <= i < |lists| :: view[i] == Elements(lists[i].links)
  {
    seq(|lists|, i requires 0 <= i < |lists| && lists[i].links != [] && Typed(lists[i].links) reads lists =>
      Elements(lists[i].links))
  }
}
