/** Ownership of descriptors over whole runs. The first half says what each
    operation may do to who owns which descriptor, and proves that ownership
    stays exclusive; the second half runs the operations on the objects. */
module DescriptorRuns {
  import opened Common
  import opened Addresses
  import opened EndpointNative
  import opened Kernel
  import opened SystemCalls
  import opened SocketHandleModel
  import opened Sockets

  datatype Kind = RawHandle | Tcp | Udp | Listening

  /** Objects 0, 1, ... and the descriptor each owns (or INVALID_HANDLE), the
      open descriptors, those that `Release` has handed to the program, and the
      system calls so far. */
  datatype View = View(host: Host, kinds: seq<Kind>, fds: seq<int>, open: set<int>, released: set<int>, calls: seq<SysCall>)

  /** The operations of a run. Adopt is the constructor from a native handle. */
  datatype Op =
    | New(kind: Kind)
    | Adopt(fd: int)
    | MoveConstruct(j: nat)
    | MoveAssign(i: nat, j: nat)
    | SwapHandles(i: nat, j: nat)
    | Release(i: nat)
    | Reset(i: nat, fd: int)
    | Close(i: nat)
    | Destroy(i: nat)
    | Connect(i: nat, endpoint: Endpoint)
    | Bind(i: nat, endpoint: Endpoint)
    | Accept(i: nat)
    | SendTo(i: nat, data: seq<byte>, endpoint: Endpoint)

  predicate Is(v: View, i: nat, kinds: set<Kind>) {
    i < |v.kinds| == |v.fds| && v.kinds[i] in kinds
  }

  /** A program gives a handle only descriptors it has got from `Release`. */
  predicate Given(v: View, fd: int) {
    fd == INVALID_HANDLE || fd in v.released
  }

  predicate Legal(v: View, op: Op)
    requires |v.kinds| == |v.fds|
  {
    match op
    case New(_) => true
    case Adopt(fd) => Given(v, fd)
    case MoveConstruct(j) => j < |v.fds|
    case MoveAssign(i, j) => i < |v.fds| && j < |v.fds| && Is(v, i, {v.kinds[j]})
    case SwapHandles(i, j) => Is(v, i, {RawHandle}) && Is(v, j, {RawHandle})
    case Release(i) => Is(v, i, {RawHandle})
    case Reset(i, fd) => Is(v, i, {RawHandle}) && (Given(v, fd) || fd == v.fds[i])
    case Close(i) => i < |v.fds|
    case Destroy(i) => i < |v.fds|
    case Connect(i, endpoint) => Is(v, i, {Tcp}) && ConstructibleEndpoint(endpoint)
    case Bind(i, endpoint) => Is(v, i, {Udp, Listening}) && ConstructibleEndpoint(endpoint)
    case Accept(i) => Is(v, i, {Listening})
    case SendTo(i, _, endpoint) => Is(v, i, {Udp}) && ConstructibleEndpoint(endpoint)
  }

  /** The descriptor `fd`, if it is one. */
  function Own(fd: int): set<int> {
    if fd == INVALID_HANDLE then {} else {fd}
  }

  /** The call that closing `fd` takes, if it is a descriptor. */
  function Shut(fd: int): seq<SysCall> {
    if fd == INVALID_HANDLE then [] else [Closed(fd)]
  }

  function NewCalls(v: View, w: View): seq<SysCall>
    requires v.calls <= w.calls
  {
    w.calls[|v.calls|..]
  }

  /** Nothing but calls has happened. */
  predicate OnlyCalls(v: View, w: View) {
    v.calls <= w.calls && w == v.(calls := w.calls)
  }

  /** Object i, which owned nothing, now owns a descriptor that was not open. */
  ghost predicate Acquires(v: View, i: nat, w: View)
    requires i < |v.fds|
  {
    && v.calls <= w.calls
    && exists fd :: fd >= 0 && fd !in v.open
                 && w == v.(fds := v.fds[i := fd], open := v.open + {fd}, calls := w.calls)
  }

  /** What a call that creates a socket for object i may do to ownership: nothing
      when the object owns one already or the call fails, else exactly one
      acquisition. */
  ghost predicate MayAcquire(v: View, i: nat, w: View)
    requires i < |v.fds|
  {
    OnlyCalls(v, w) || (v.fds[i] == INVALID_HANDLE && Acquires(v, i, w))
  }

  /** It asks the kernel for a socket and then makes `requests`, and object i has
      the descriptor exactly if nothing fails. */
  ghost predicate Asks(v: View, i: nat, w: View, family: nat, protocol: Protocol, requests: seq<Request>)
    requires i < |v.fds|
  {
    && MayAcquire(v, i, w)
    && if v.fds[i] != INVALID_HANDLE then w == v
       else exists result ::
         && Creates(NewCalls(v, w), family, protocol, requests, result)
         && if result.Success? then i < |w.fds| && w.fds[i] == result.value else OnlyCalls(v, w)
  }

  ghost predicate Sends(v: View, i: nat, w: View, data: seq<byte>, endpoint: Endpoint)
    requires i < |v.fds| && ConstructibleEndpoint(endpoint)
  {
    && MayAcquire(v, i, w)
    && if |data| > 0x7FFF_FFFF then w == v
       else exists result ::
         && SendsOne(NewCalls(v, w), v.fds[i], Family(endpoint.address.version), data, AddressBytes(v.host, endpoint),
                     result)
         && (result.Failure? || v.fds[i] != INVALID_HANDLE ==> OnlyCalls(v, w))
         && (result.Success? && v.fds[i] == INVALID_HANDLE ==>
               i < |w.fds| && NewCalls(v, w)[0].grant == Granted(w.fds[i]))
  }

  ghost predicate Effect(v: View, op: Op, w: View)
    requires |v.kinds| == |v.fds| && Legal(v, op)
  {
    match op
    case New(kind) => w == v.(kinds := v.kinds + [kind], fds := v.fds + [INVALID_HANDLE])
    case Adopt(fd) =>
      w == v.(kinds := v.kinds + [RawHandle], fds := v.fds + [fd], released := v.released - {fd})
    case MoveConstruct(j) =>
      w == v.(kinds := v.kinds + [v.kinds[j]], fds := v.fds[j := INVALID_HANDLE] + [v.fds[j]])
    case MoveAssign(i, j) =>
      w == if i == j then v
           else v.(fds := v.fds[i := v.fds[j]][j := INVALID_HANDLE], open := v.open - Own(v.fds[i]),
                   calls := v.calls + Shut(v.fds[i]))
    case SwapHandles(i, j) => w == v.(fds := v.fds[i := v.fds[j]][j := v.fds[i]])
    case Release(i) => w == v.(fds := v.fds[i := INVALID_HANDLE], released := v.released + Own(v.fds[i]))
    case Reset(i, fd) =>
      w == if fd == v.fds[i] then v
           else v.(fds := v.fds[i := fd], open := v.open - Own(v.fds[i]), released := v.released - {fd},
                   calls := v.calls + Shut(v.fds[i]))
    case Close(i) =>
      w == v.(fds := v.fds[i := INVALID_HANDLE], open := v.open - Own(v.fds[i]), calls := v.calls + Shut(v.fds[i]))
    case Destroy(i) =>
      w == v.(kinds := v.kinds[..i] + v.kinds[i + 1..], fds := v.fds[..i] + v.fds[i + 1..],
              open := v.open - Own(v.fds[i]), calls := v.calls + Shut(v.fds[i]))
    case Connect(i, endpoint) =>
      Asks(v, i, w, Family(endpoint.address.version), TcpProtocol, [Configure, ConnectTo(AddressBytes(v.host, endpoint))])
    case Bind(i, endpoint) =>
      if v.kinds[i] == Udp
      then Asks(v, i, w, Family(endpoint.address.version), UdpProtocol, [BindTo(AddressBytes(v.host, endpoint))])
      else Asks(v, i, w, Family(endpoint.address.version), TcpProtocol, [Configure, BindTo(AddressBytes(v.host, endpoint))])
    case SendTo(i, data, endpoint) => Sends(v, i, w, data, endpoint)
    case Accept(i) =>
      if v.fds[i] == INVALID_HANDLE then w == v
      else
        && v.calls <= w.calls
        && exists result ::
             && AcceptsOne(NewCalls(v, w), v.fds[i], result)
             && if result.Success? then Accepts(v, w, result.value) else OnlyCalls(v, w)
  }

  /** A new socket object owns a descriptor that was not open. */
  ghost predicate Accepts(v: View, w: View, fd: int) {
    && fd >= 0 && fd !in v.open
    && w == v.(kinds := v.kinds + [Tcp], fds := v.fds + [fd], open := v.open + {fd}, calls := w.calls)
  }

  /** No two objects own one descriptor, and the open descriptors are exactly
      the owned ones and the released ones. */
  ghost predicate Exclusive(v: View) {
    && |v.kinds| == |v.fds|
    && Unshared(v.fds)
    && (forall fd {:trigger fd in v.open} {:trigger fd in v.fds} {:trigger fd in v.released} ::
          fd in v.open <==> (fd in v.fds && fd != INVALID_HANDLE) || fd in v.released)
    && (forall fd <- v.released :: fd !in v.fds)
    && INVALID_HANDLE !in v.released
  }

  ghost predicate Unshared(fds: seq<int>) {
    forall i, j | 0 <= i < j < |fds| :: fds[i] == fds[j] ==> fds[i] == INVALID_HANDLE
  }

  /** When object i gives up its descriptor for `fd`, the others keep theirs. */
  lemma MembersAfterUpdate(fds: seq<int>, i: nat, fd: int)
    requires Unshared(fds) && i < |fds|
    ensures forall x | x != INVALID_HANDLE :: x in fds[i := fd] <==> x == fd || (x in fds && x != fds[i])
  {
    assert fds[i := fd][i] == fd;
    forall x | x != INVALID_HANDLE && x in fds && x != fds[i]
      ensures x in fds[i := fd]
    {
      var k :| 0 <= k < |fds| && fds[k] == x;
      assert fds[i := fd][k] == x;
    }
  }

  lemma MembersAfterRemoval(fds: seq<int>, i: nat)
    requires Unshared(fds) && i < |fds|
    ensures Unshared(fds[..i] + fds[i + 1..])
    ensures forall x | x != INVALID_HANDLE :: x in fds[..i] + fds[i + 1..] <==> x in fds && x != fds[i]
  {
  }

  lemma MembersAfterExchange(fds: seq<int>, i: nat, j: nat)
    requires i < |fds| && j < |fds|
    ensures forall x :: x in fds[i := fds[j]][j := fds[i]] <==> x in fds
  {
    var swapped := fds[i := fds[j]][j := fds[i]];
    assert forall k | 0 <= k < |fds| :: fds[k] == swapped[if k == i then j else if k == j then i else k];
    assert forall k | 0 <= k < |fds| :: swapped[k] == fds[if k == i then j else if k == j then i else k];
  }

  lemma MoveAssignKeepsExclusive(v: View, i: nat, j: nat, w: View)
    requires Exclusive(v) && Legal(v, MoveAssign(i, j)) && Effect(v, MoveAssign(i, j), w)
    ensures Exclusive(w)
  {
    if i != j {
      var swapped := v.fds[i := v.fds[j]][j := v.fds[i]];
      MembersAfterExchange(v.fds, i, j);
      MembersAfterUpdate(swapped, j, INVALID_HANDLE);
      assert w.fds == swapped[j := INVALID_HANDLE];
    }
  }

  lemma TransferKeepsExclusive(v: View, op: Op, w: View)
    requires Exclusive(v) && Legal(v, op) && Effect(v, op, w)
    requires op.MoveConstruct? || op.MoveAssign? || op.SwapHandles?
    ensures Exclusive(w)
  {
    match op
    case MoveConstruct(j) => MembersAfterUpdate(v.fds, j, INVALID_HANDLE);
    case MoveAssign(i, j) => MoveAssignKeepsExclusive(v, i, j, w);
    case SwapHandles(i, j) => MembersAfterExchange(v.fds, i, j);
  }

  lemma GivingUpKeepsExclusive(v: View, op: Op, w: View)
    requires Exclusive(v) && Legal(v, op) && Effect(v, op, w)
    requires op.Release? || op.Reset? || op.Close? || op.Destroy?
    ensures Exclusive(w)
  {
    match op
    case Release(i) => MembersAfterUpdate(v.fds, i, INVALID_HANDLE);
    case Reset(i, fd) => MembersAfterUpdate(v.fds, i, fd);
    case Close(i) => MembersAfterUpdate(v.fds, i, INVALID_HANDLE);
    case Destroy(i) => MembersAfterRemoval(v.fds, i);
  }

  /** Whatever an operation does and whether or not it fails, ownership stays
      exclusive and nothing leaks. */
  lemma EffectKeepsExclusive(v: View, op: Op, w: View)
    requires Exclusive(v) && Legal(v, op) && Effect(v, op, w)
    ensures Exclusive(w)
  {
    if op.MoveConstruct? || op.MoveAssign? || op.SwapHandles? {
      TransferKeepsExclusive(v, op, w);
    } else if op.Release? || op.Reset? || op.Close? || op.Destroy? {
      GivingUpKeepsExclusive(v, op, w);
    } else if op.Connect? || op.Bind? || op.SendTo? {
      AcquiringKeepsExclusive(v, op.i, w);
    }
  }

  lemma AcquiringKeepsExclusive(v: View, i: nat, w: View)
    requires Exclusive(v) && i < |v.fds| && MayAcquire(v, i, w)
    ensures Exclusive(w)
  {
    if !OnlyCalls(v, w) {
      var fd :| fd >= 0 && fd !in v.open
             && w == v.(fds := v.fds[i := fd], open := v.open + {fd}, calls := w.calls);
      MembersAfterUpdate(v.fds, i, fd);
    }
  }

  lemma AsksFor(v: View, i: nat, w: View, family: nat, protocol: Protocol, requests: seq<Request>, result: Result<int>)
    requires i < |v.fds| && MayAcquire(v, i, w)
    requires v.fds[i] != INVALID_HANDLE ==> w == v
    requires v.fds[i] == INVALID_HANDLE ==>
               && Creates(NewCalls(v, w), family, protocol, requests, result)
               && if result.Success? then i < |w.fds| && w.fds[i] == result.value else OnlyCalls(v, w)
    ensures Asks(v, i, w, family, protocol, requests)
  {
  }

  lemma SendsFor(v: View, i: nat, w: View, data: seq<byte>, endpoint: Endpoint, result: Result<nat>)
    requires i < |v.fds| && ConstructibleEndpoint(endpoint) && MayAcquire(v, i, w)
    requires |data| > 0x7FFF_FFFF ==> w == v
    requires |data| <= 0x7FFF_FFFF ==>
               && SendsOne(NewCalls(v, w), v.fds[i], Family(endpoint.address.version), data, AddressBytes(v.host, endpoint),
                     result)
               && (result.Failure? || v.fds[i] != INVALID_HANDLE ==> OnlyCalls(v, w))
               && (result.Success? && v.fds[i] == INVALID_HANDLE ==>
                     i < |w.fds| && NewCalls(v, w)[0].grant == Granted(w.fds[i]))
    ensures Sends(v, i, w, data, endpoint)
  {
  }

  /** A run, as the views before, between and after its operations. */
  ghost predicate IsRun(views: seq<View>, ops: seq<Op>) {
    && |views| == |ops| + 1
    && forall k {:trigger ops[k]} | 0 <= k < |ops| ::
         |views[k].kinds| == |views[k].fds| && Legal(views[k], ops[k]) && Effect(views[k], ops[k], views[k + 1])
  }

  lemma RunExtended(views: seq<View>, ops: seq<Op>, op: Op, next: View)
    requires IsRun(views, ops)
    requires var v := views[|ops|]; |v.kinds| == |v.fds| && Legal(v, op) && Effect(v, op, next)
    ensures IsRun(views + [next], ops + [op])
  {
  }

  /** At every moment of every run, with arbitrary failures and with numbers of
      closed descriptors coming again, each open descriptor has one owner: one
      object, or the program that released it. */
  lemma {:induction false} RunKeepsExclusive(views: seq<View>, ops: seq<Op>, k: nat)
    requires IsRun(views, ops) && Exclusive(views[0]) && k < |views|
    ensures Exclusive(views[k])
  {
    if k > 0 {
      RunKeepsExclusive(views, ops, k - 1);
      assert Effect(views[k - 1], ops[k - 1], views[k]);
      EffectKeepsExclusive(views[k - 1], ops[k - 1], views[k]);
    }
  }

  /** Once no object owns a descriptor, all that is open is what was released. */
  lemma NothingLeaks(v: View)
    requires Exclusive(v) && forall fd <- v.fds :: fd == INVALID_HANDLE
    ensures v.open == v.released
  {
    assert forall fd :: fd in v.open <==> fd in v.released;
  }

  // --- The operations on the objects -----------------------------------------

  datatype Object =
    | OfHandle(raw: SocketHandle)
    | OfTcp(tcp: TcpSocket)
    | OfUdp(udp: UdpSocket)
    | OfListener(listener: TcpListener)
  {
    function Handle(): SocketHandle {
      match this
      case OfHandle(raw) => raw
      case OfTcp(tcp) => tcp.handle
      case OfUdp(udp) => udp.handle
      case OfListener(listener) => listener.handle
    }

    function KindOf(): Kind {
      match this
      case OfHandle(_) => RawHandle
      case OfTcp(_) => Tcp
      case OfUdp(_) => Udp
      case OfListener(_) => Listening
    }
  }

  function Kinds(objects: seq<Object>): (kinds: seq<Kind>)
    ensures |kinds| == |objects|
    ensures forall i {:trigger kinds[i]} | 0 <= i < |objects| :: kinds[i] == objects[i].KindOf()
  {
    seq(|objects|, i requires 0 <= i < |objects| => objects[i].KindOf())
  }

  function Handles(objects: seq<Object>): (handles: seq<SocketHandle>)
    ensures |handles| == |objects|
    ensures forall i {:trigger handles[i]} | 0 <= i < |objects| :: handles[i] == objects[i].Handle()
  {
    seq(|objects|, i requires 0 <= i < |objects| => objects[i].Handle())
  }

  function Descriptors(handles: seq<SocketHandle>): (fds: seq<int>)
    reads handles
    ensures |fds| == |handles|
    ensures forall i {:trigger fds[i]} | 0 <= i < |handles| :: fds[i] == handles[i].handle
  {
    seq(|handles|, i requires 0 <= i < |handles| reads handles => handles[i].handle)
  }

  class World {
    const os: Os
    var objects: seq<Object>
    /** What `Release` has handed to the program and not got back. */
    var released: set<int>
    ghost var repr: set<object>

    constructor (host: Host)
      ensures Valid() && fresh(repr) && objects == [] && released == {}
    {
      os := new Os(host);
      objects := [];
      released := {};
      repr := {this, os};
    }

    function Now(): View
      reads this, os, Handles(objects)
    {
      View(os.host, Kinds(objects), Descriptors(Handles(objects)), os.table.open, released, os.table.calls)
    }

    /** The objects are separate objects over one kernel. */
    ghost predicate Separate()
      reads this
    {
      && this in repr && os in repr
      && (forall i {:trigger objects[i]} | 0 <= i < |objects| ::
            objects[i].Handle().os == os && objects[i].Handle() in repr)
      && forall i, j | 0 <= i < j < |objects| :: objects[i].Handle() != objects[j].Handle()
    }

    ghost predicate Valid()
      reads this, os, Handles(objects)
    {
      Separate() && Exclusive(Now())
    }

    method Add(o: Object)
      requires Separate() && o.Handle().os == os
      requires forall i {:trigger objects[i]} | 0 <= i < |objects| :: objects[i].Handle() != o.Handle()
      modifies this`objects, this`repr
      ensures Separate() && objects == old(objects) + [o] && repr == old(repr) + {o.Handle()}
      ensures Now() == old(Now()).(kinds := old(Now()).kinds + [o.KindOf()],
                                   fds := old(Now()).fds + [o.Handle().handle])
    {
      objects := objects + [o];
      repr := repr + {o.Handle()};
      assert Kinds(objects) == old(Kinds(objects)) + [o.KindOf()];
      assert Descriptors(Handles(objects)) == old(Descriptors(Handles(objects))) + [o.Handle().handle];
    }

    method Make(kind: Kind)
      requires Valid()
      modifies repr
      ensures old(repr) <= repr && fresh(repr - old(repr))
      ensures Separate() && Effect(old(Now()), New(kind), Now())
    {
      match kind {
        case RawHandle =>
          var h := new SocketHandle(os);
          Add(OfHandle(h));
        case Tcp =>
          var s := new TcpSocket(os);
          Add(OfTcp(s));
        case Udp =>
          var u := new UdpSocket(os);
          Add(OfUdp(u));
        case Listening =>
          var l := new TcpListener(os);
          Add(OfListener(l));
      }
    }

    method TakeIn(fd: int)
      requires Valid() && Legal(Now(), Adopt(fd))
      modifies repr
      ensures old(repr) <= repr && fresh(repr - old(repr))
      ensures Separate() && Effect(old(Now()), Adopt(fd), Now())
    {
      var h := new SocketHandle(os, fd);
      released := released - {fd};
      Add(OfHandle(h));
    }

    /** After a call on object i alone, only its descriptor can differ. */
    twostate lemma OneChanged(i: nat)
      requires old(Separate()) && objects == old(objects) && i < |objects|
      requires forall k {:trigger objects[k]} | 0 <= k < |objects| && k != i :: unchanged(objects[k].Handle())
      ensures Now().kinds == old(Now()).kinds
      ensures Now().fds == old(Now()).fds[i := objects[i].Handle().handle]
    {
    }

    method OnOne(op: Op)
      requires Valid() && Legal(Now(), op)
      requires op.Release? || op.Reset? || op.Close?
      modifies this`released, os, Handles(objects)
      ensures Separate() && Effect(old(Now()), op, Now())
    {
      var h := objects[op.i].Handle();
      assert h.handle == Now().fds[op.i];
      match op {
        case Release(i) =>
          var fd := h.Release();
          released := released + Own(fd);
        case Reset(i, fd) =>
          if fd != h.handle {
            released := released - {fd};
          }
          h.Reset(fd);
        case Close(i) => h.Close();
      }
      OneChanged(op.i);
    }

    /** After a call that may have made a socket for object i, and only that. */
    twostate lemma OneAcquired(i: nat)
      requires old(Separate()) && Separate() && objects == old(objects) && released == old(released)
      requires i < |objects|
      requires forall k {:trigger objects[k]} | 0 <= k < |objects| && k != i :: unchanged(objects[k].Handle())
      requires old(os.table.calls) <= os.table.calls
      requires var h := objects[i].Handle();
               || (h.handle == old(h.handle) && os.table.open == old(os.table.open))
               || (old(h.handle) == INVALID_HANDLE && Acquired(h, os, old(os.table.open)))
      ensures MayAcquire(old(Now()), i, Now()) && Now().fds[i] == objects[i].Handle().handle
      ensures objects[i].Handle().handle == old(objects[i].Handle().handle) && os.table.open == old(os.table.open) ==>
                OnlyCalls(old(Now()), Now())
    {
      OneChanged(i);
      var h, v := objects[i].Handle(), old(Now());
      assert v.fds[i] == old(h.handle);
      if h.handle != v.fds[i] {
        assert Now() == v.(fds := v.fds[i := h.handle], open := v.open + {h.handle}, calls := Now().calls);
      } else {
        assert v.fds[i := h.handle] == v.fds;
      }
    }

    method OnSocket(op: Op)
      requires Valid() && Legal(Now(), op)
      requires op.Connect? || op.Bind? || op.SendTo?
      modifies os, Handles(objects)
      ensures Separate() && Effect(old(Now()), op, Now())
    {
      match op {
        case Connect(i, endpoint) => OnConnect(i, endpoint);
        case Bind(i, endpoint) => OnBind(i, endpoint);
        case SendTo(i, data, endpoint) => OnSendTo(i, data, endpoint);
      }
    }

    method OnConnect(i: nat, endpoint: Endpoint)
      requires Valid() && Legal(Now(), Connect(i, endpoint))
      modifies os, Handles(objects)
      ensures Separate() && Effect(old(Now()), Connect(i, endpoint), Now())
    {
      assert objects[i].KindOf() == Now().kinds[i] && objects[i].Handle().handle == Now().fds[i];
      var result := objects[i].tcp.Connect(endpoint);
      OneAcquired(i);
      AsksFor(old(Now()), i, Now(), Family(endpoint.address.version), TcpProtocol,
              [Configure, ConnectTo(AddressBytes(os.host, endpoint))], GotBy(objects[i].Handle(), result));
    }

    method OnBind(i: nat, endpoint: Endpoint)
      requires Valid() && Legal(Now(), Bind(i, endpoint))
      modifies os, Handles(objects)
      ensures Separate() && Effect(old(Now()), Bind(i, endpoint), Now())
    {
      assert objects[i].KindOf() == Now().kinds[i] && objects[i].Handle().handle == Now().fds[i];
      if objects[i].OfUdp? {
        var result := objects[i].udp.Bind(endpoint);
        OneAcquired(i);
        AsksFor(old(Now()), i, Now(), Family(endpoint.address.version), UdpProtocol,
                [BindTo(AddressBytes(os.host, endpoint))], GotBy(objects[i].Handle(), result));
      } else {
        var result := objects[i].listener.Bind(endpoint);
        OneAcquired(i);
        AsksFor(old(Now()), i, Now(), Family(endpoint.address.version), TcpProtocol,
                [Configure, BindTo(AddressBytes(os.host, endpoint))], GotBy(objects[i].Handle(), result));
      }
    }

    method OnSendTo(i: nat, data: seq<byte>, endpoint: Endpoint)
      requires Valid() && Legal(Now(), SendTo(i, data, endpoint))
      modifies os, Handles(objects)
      ensures Separate() && Effect(old(Now()), SendTo(i, data, endpoint), Now())
    {
      assert objects[i].KindOf() == Now().kinds[i] && objects[i].Handle().handle == Now().fds[i];
      var result := objects[i].udp.SendTo(data, endpoint);
      OneAcquired(i);
      SendsFor(old(Now()), i, Now(), data, endpoint, result);
    }

    method OnListener(i: nat)
      requires Valid() && Legal(Now(), Accept(i))
      modifies repr
      ensures old(repr) <= repr && fresh(repr - old(repr))
      ensures Separate() && Effect(old(Now()), Accept(i), Now())
    {
      var o := objects[i];
      ghost var v := Now();
      assert o.KindOf() == v.kinds[i] && o.Handle().handle == v.fds[i];
      var result := o.listener.Accept();
      if result.Success? {
        ghost var fd := result.value.handle.handle;
        Add(OfTcp(result.value));
        assert Accepts(v, Now(), fd);
      }
    }

    method OnTwo(op: Op)
      requires Valid() && Legal(Now(), op)
      requires op.MoveAssign? || op.SwapHandles?
      modifies os, Handles(objects)
      ensures Separate() && Effect(old(Now()), op, Now())
    {
      var a, b := objects[op.i].Handle(), objects[op.j].Handle();
      ghost var v := Now();
      assert a.handle == v.fds[op.i] && b.handle == v.fds[op.j];
      if op.MoveAssign? {
        a.MoveAssign(b);
      } else {
        a.Swap(b);
      }
      assert Now().fds == v.fds[op.i := a.handle][op.j := b.handle];
    }

    method MoveOut(j: nat)
      requires Valid() && Legal(Now(), MoveConstruct(j))
      modifies repr
      ensures old(repr) <= repr && fresh(repr - old(repr))
      ensures Separate() && Effect(old(Now()), MoveConstruct(j), Now())
    {
      var o := objects[j];
      ghost var v := Now();
      assert o.Handle().handle == v.fds[j];
      if o.OfHandle? {
        var h := new SocketHandle.MovedFrom(o.raw);
        OneChanged(j);
        Add(OfHandle(h));
      } else if o.OfTcp? {
        var s := new TcpSocket.Over(o.tcp.handle);
        OneChanged(j);
        Add(OfTcp(s));
      } else if o.OfUdp? {
        var u := new UdpSocket.Over(o.udp.handle);
        OneChanged(j);
        Add(OfUdp(u));
      } else {
        var l := new TcpListener.Over(o.listener.handle);
        OneChanged(j);
        Add(OfListener(l));
      }
    }

    method Remove(i: nat)
      requires Valid() && Legal(Now(), Destroy(i))
      modifies this`objects, os, Handles(objects)
      ensures Separate() && Effect(old(Now()), Destroy(i), Now())
    {
      var h := objects[i].Handle();
      ghost var v := Now();
      assert h.handle == v.fds[i];
      h.Close();
      OneChanged(i);
      Forget(i);
    }

    method Forget(i: nat)
      requires Separate() && i < |objects|
      modifies this`objects
      ensures Separate()
      ensures Now() == old(Now()).(kinds := old(Now()).kinds[..i] + old(Now()).kinds[i + 1..],
                                   fds := old(Now()).fds[..i] + old(Now()).fds[i + 1..])
    {
      ghost var v := Now();
      objects := objects[..i] + objects[i + 1..];
      assert Kinds(objects) == v.kinds[..i] + v.kinds[i + 1..];
      assert Descriptors(Handles(objects)) == v.fds[..i] + v.fds[i + 1..];
    }

    method Create(op: Op)
      requires Valid() && Legal(Now(), op)
      requires op.New? || op.Adopt? || op.MoveConstruct? || op.Accept?
      modifies repr
      ensures old(repr) <= repr && fresh(repr - old(repr))
      ensures Separate() && Effect(old(Now()), op, Now())
    {
      match op {
        case New(kind) => Make(kind);
        case Adopt(fd) => TakeIn(fd);
        case MoveConstruct(j) => MoveOut(j);
        case Accept(i) => OnListener(i);
      }
    }

    method Change(op: Op)
      requires Valid() && Legal(Now(), op)
      requires !(op.New? || op.Adopt? || op.MoveConstruct? || op.Accept?)
      modifies this`objects, this`released, os, Handles(objects)
      ensures Separate() && Effect(old(Now()), op, Now())
    {
      match op {
        case MoveAssign(i, j) => OnTwo(op);
        case SwapHandles(i, j) => OnTwo(op);
        case Release(i) => OnOne(op);
        case Reset(i, fd) => OnOne(op);
        case Close(i) => OnOne(op);
        case Destroy(i) => Remove(i);
        case Connect(i, endpoint) => OnSocket(op);
        case Bind(i, endpoint) => OnSocket(op);
        case SendTo(i, data, endpoint) => OnSocket(op);
      }
    }

    /** One operation, with whatever outcome the kernel chooses. */
    method Apply(op: Op)
      requires Valid() && Legal(Now(), op)
      modifies repr
      ensures old(repr) <= repr && fresh(repr - old(repr))
      ensures Valid() && Effect(old(Now()), op, Now())
    {
      if op.New? || op.Adopt? || op.MoveConstruct? || op.Accept? {
        Create(op);
      } else {
        Change(op);
      }
      EffectKeepsExclusive(old(Now()), op, Now());
    }

    /** Every run of operations that are legal where they come up, from any
        state of the program; an illegal one ends the run. `views` is what the
        run goes through. */
    method Run(ops: seq<Op>) returns (done: nat, ghost views: seq<View>)
      requires Valid()
      modifies repr
      ensures old(repr) <= repr && fresh(repr - old(repr))
      ensures Valid()
      ensures done <= |ops| && (done < |ops| ==> !Legal(Now(), ops[done]))
      ensures IsRun(views, ops[..done]) && views[0] == old(Now()) && views[done] == Now()
      ensures ClosedOnce(os.table.calls) && GrantedOnce(os.table.calls)
    {
      done, views := 0, [Now()];
      while done < |ops|
        invariant Valid() && old(repr) <= repr && fresh(repr - old(repr))
        invariant done <= |ops| && IsRun(views, ops[..done]) && views[0] == old(Now()) && views[done] == Now()
      {
        if !Legal(Now(), ops[done]) {
          break;
        }
        Apply(ops[done]);
        RunExtended(views, ops[..done], ops[done], Now());
        assert ops[..done] + [ops[done]] == ops[..done + 1];
        done, views := done + 1, views + [Now()];
      }
      ConsistentIsOnce(os.table.open, os.table.calls);
    }
  }
}
