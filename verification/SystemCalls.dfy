/** The system calls by which a socket comes about: one that makes a descriptor,
    then requests about it, in order, until one fails and the descriptor is
    closed again. */
module SystemCalls {
  import opened Common
  import opened Kernel

  /** `calls` make `requests` of `fd`; `result` is what comes of them. */
  predicate Attempts(calls: seq<SysCall>, fd: int, requests: seq<Request>, result: Result<int>)
    decreases |requests|
  {
    if requests == [] then calls == [] && result == Success(fd)
    else
      && calls != [] && calls[0].Requested? && calls[0].fd == fd && calls[0].what == requests[0]
      && match calls[0].error
         case None => Attempts(calls[1..], fd, requests[1..], result)
         case Some(code) => calls == [calls[0], Closed(fd)] && result == Failure(System(code))
  }

  predicate Creates(calls: seq<SysCall>, family: nat, protocol: Protocol, requests: seq<Request>, result: Result<int>) {
    && calls != [] && calls[0].Socketed? && calls[0].family == family && calls[0].protocol == protocol
    && match calls[0].grant
       case Denied(code) => calls == [calls[0]] && result == Failure(System(code))
       case Granted(fd) => Attempts(calls[1..], fd, requests, result)
  }

  lemma OpenAfterFirst(open: set<int>, calls: seq<SysCall>)
    requires calls != []
    ensures OpenAfter(open, calls) == OpenAfter(Opened(open, calls[0]), calls[1..])
  {
    assert calls == [calls[0]] + calls[1..];
    OpenAfterSplit(open, [calls[0]], calls[1..]);
    assert OpenAfter(open, [calls[0]]) == Opened(OpenAfter(open, []), calls[0]);
  }

  /** Nothing is left open that the result does not hand over, whichever request
      of whatever list fails. */
  lemma {:induction false} AttemptsLeakNothing(open: set<int>, calls: seq<SysCall>, fd: int, requests: seq<Request>,
                                               result: Result<int>)
    requires Attempts(calls, fd, requests, result) && fd in open
    ensures OpenAfter(open, calls) == if result.Success? then open else open - {fd}
    decreases |requests|
  {
    if requests != [] {
      OpenAfterFirst(open, calls);
      match calls[0].error
      case None => AttemptsLeakNothing(open, calls[1..], fd, requests[1..], result);
      case Some(_) =>
        assert calls[1..] == [Closed(fd)];
        OpenAfterFirst(open, calls[1..]);
    }
  }

  lemma CreationLeaksNothing(open: set<int>, calls: seq<SysCall>, family: nat, protocol: Protocol,
                             requests: seq<Request>, result: Result<int>)
    requires Creates(calls, family, protocol, requests, result)
    requires calls[0].grant.Granted? ==> calls[0].grant.fd !in open
    ensures OpenAfter(open, calls) == if result.Success? then open + {result.value} else open
  {
    OpenAfterFirst(open, calls);
    match calls[0].grant
    case Denied(_) => assert calls[1..] == [];
    case Granted(fd) =>
      AttemptsLeakNothing(open + {fd}, calls[1..], fd, requests, result);
      AttemptsHandOver(calls[1..], fd, requests, result);
  }

  lemma {:induction false} AttemptsHandOver(calls: seq<SysCall>, fd: int, requests: seq<Request>, result: Result<int>)
    requires Attempts(calls, fd, requests, result)
    ensures result.Success? ==> result.value == fd
    decreases |requests|
  {
    if requests != [] && calls[0].error.None? {
      AttemptsHandOver(calls[1..], fd, requests[1..], result);
    }
  }

  /** One more request, after those before it have succeeded. */
  lemma {:induction false} AskedNext(calls: seq<SysCall>, fd: int, requests: seq<Request>, what: Request, error: Option<int>)
    requires Attempts(calls, fd, requests, Success(fd))
    ensures error == None ==> Attempts(calls + [Requested(fd, what, None)], fd, requests + [what], Success(fd))
    ensures error.Some? ==>
              Attempts(calls + [Requested(fd, what, error), Closed(fd)], fd, requests + [what], Failure(System(error.value)))
    decreases |requests|
  {
    var good, bad := calls + [Requested(fd, what, None)], calls + [Requested(fd, what, error), Closed(fd)];
    if requests == [] {
      assert good == [Requested(fd, what, None)] && good[1..] == [];
      assert requests + [what] == [what] && [what][1..] == [];
    } else {
      assert (requests + [what])[1..] == requests[1..] + [what];
      assert good[1..] == calls[1..] + [Requested(fd, what, None)];
      assert bad[1..] == calls[1..] + [Requested(fd, what, error), Closed(fd)];
      AskedNext(calls[1..], fd, requests[1..], what, error);
    }
  }

  /** And none, after one before it has failed. */
  lemma {:induction false} NotAsked(calls: seq<SysCall>, fd: int, requests: seq<Request>, what: Request, error: SocketError)
    requires Attempts(calls, fd, requests, Failure(error))
    ensures Attempts(calls, fd, requests + [what], Failure(error))
    decreases |requests|
  {
    assert (requests + [what])[1..] == requests[1..] + [what];
    if calls[0].error.None? {
      NotAsked(calls[1..], fd, requests[1..], what, error);
    }
  }

  lemma CreatedNext(calls: seq<SysCall>, family: nat, protocol: Protocol, requests: seq<Request>, fd: int,
                    what: Request, error: Option<int>)
    requires Creates(calls, family, protocol, requests, Success(fd))
    ensures error == None ==>
              Creates(calls + [Requested(fd, what, None)], family, protocol, requests + [what], Success(fd))
    ensures error.Some? ==>
              Creates(calls + [Requested(fd, what, error), Closed(fd)], family, protocol, requests + [what],
                      Failure(System(error.value)))
  {
    AttemptsHandOver(calls[1..], calls[0].grant.fd, requests, Success(fd));
    AskedNext(calls[1..], fd, requests, what, error);
    assert (calls + [Requested(fd, what, None)])[1..] == calls[1..] + [Requested(fd, what, None)];
    assert (calls + [Requested(fd, what, error), Closed(fd)])[1..] == calls[1..] + [Requested(fd, what, error), Closed(fd)];
  }

  lemma CreationFailed(calls: seq<SysCall>, family: nat, protocol: Protocol, requests: seq<Request>,
                       what: Request, error: SocketError)
    requires Creates(calls, family, protocol, requests, Failure(error))
    ensures Creates(calls, family, protocol, requests + [what], Failure(error))
  {
    if calls[0].grant.Granted? {
      NotAsked(calls[1..], calls[0].grant.fd, requests, what, error);
    }
  }

  /** The error that a call gave, if it failed. */
  function CodeOf(call: SysCall): Option<int> {
    match call
    case Socketed(_, _, Denied(code)) => Some(code)
    case Accepted(_, Denied(code)) => Some(code)
    case Requested(_, _, error) => error
    case Located(_, _, _, _, error) => error
    case Sent(_, _, _, Failed(code)) => Some(code)
    case _ => None
  }

  predicate AllFine(calls: seq<SysCall>) {
    forall call <- calls :: CodeOf(call) == None
  }

  /** The error is that of one of the calls. */
  ghost predicate Reported(calls: seq<SysCall>, error: SocketError) {
    error.System? && exists call <- calls :: CodeOf(call) == Some(error.code)
  }

  /** Requests succeed as a whole exactly when none of them fails. */
  lemma {:induction false} AttemptsFine(calls: seq<SysCall>, fd: int, requests: seq<Request>, result: Result<int>)
    requires Attempts(calls, fd, requests, result)
    ensures result.Success? <==> AllFine(calls)
    ensures result.Failure? ==> Reported(calls, result.error)
    decreases |requests|
  {
    if requests != [] {
      assert calls == [calls[0]] + calls[1..] && calls[0] in calls;
      if calls[0].error.None? {
        AttemptsFine(calls[1..], fd, requests[1..], result);
        assert forall call <- calls[1..] :: call in calls;
      } else {
        assert CodeOf(calls[0]) == calls[0].error;
      }
    }
  }

  lemma CreationFine(calls: seq<SysCall>, family: nat, protocol: Protocol, requests: seq<Request>, result: Result<int>)
    requires Creates(calls, family, protocol, requests, result)
    ensures result.Success? <==> AllFine(calls)
    ensures result.Failure? ==> Reported(calls, result.error)
  {
    assert calls == [calls[0]] + calls[1..] && calls[0] in calls;
    match calls[0].grant
    case Denied(code) => assert CodeOf(calls[0]) == Some(code);
    case Granted(fd) =>
      AttemptsFine(calls[1..], fd, requests, result);
      assert forall call <- calls[1..] :: call in calls;
  }

  // --- The calls written out ------------------------------------------------------

  lemma AttemptsOneExactly(calls: seq<SysCall>, fd: int, a: Request, result: Result<int>)
    ensures Attempts(calls, fd, [a], result) <==>
            || (calls == [Requested(fd, a, None)] && result == Success(fd))
            || (|calls| == 2 && calls[0].Requested? && calls[0].error.Some?
                && calls == [Requested(fd, a, calls[0].error), Closed(fd)]
                && result == Failure(System(calls[0].error.value)))
  {
    assert [a][1..] == [];
    if calls != [] {
      assert calls == [calls[0]] + calls[1..];
    }
  }

  lemma AttemptsTwoExactly(calls: seq<SysCall>, fd: int, a: Request, b: Request, result: Result<int>)
    ensures Attempts(calls, fd, [a, b], result) <==>
            || (calls == [Requested(fd, a, None), Requested(fd, b, None)] && result == Success(fd))
            || (|calls| == 2 && calls[0].Requested? && calls[0].error.Some?
                && calls == [Requested(fd, a, calls[0].error), Closed(fd)]
                && result == Failure(System(calls[0].error.value)))
            || (|calls| == 3 && calls[1].Requested? && calls[1].error.Some?
                && calls == [Requested(fd, a, None), Requested(fd, b, calls[1].error), Closed(fd)]
                && result == Failure(System(calls[1].error.value)))
  {
    assert [a, b][1..] == [b];
    if calls != [] {
      assert calls == [calls[0]] + calls[1..];
      AttemptsOneExactly(calls[1..], fd, b, result);
    }
  }

  lemma CreatesNoneExactly(calls: seq<SysCall>, family: nat, protocol: Protocol, result: Result<int>)
    ensures Creates(calls, family, protocol, [], result) <==>
            |calls| == 1 && match calls[0]
                            case Socketed(f, p, grant) =>
                              && f == family && p == protocol
                              && result == (if grant.Denied? then Failure(System(grant.code)) else Success(grant.fd))
                            case _ => false
  {
    if calls != [] {
      assert calls == [calls[0]] + calls[1..];
    }
  }

  /** All that the calls of a UDP bind, or of a configured TCP socket, can be. */
  lemma CreatesOneExactly(calls: seq<SysCall>, family: nat, protocol: Protocol, a: Request, result: Result<int>)
    ensures Creates(calls, family, protocol, [a], result) <==>
            calls != [] && match calls[0]
              case Socketed(f, p, Denied(code)) =>
                f == family && p == protocol && calls == [calls[0]] && result == Failure(System(code))
              case Socketed(f, p, Granted(fd)) =>
                && f == family && p == protocol
                && (|| (calls == [calls[0], Requested(fd, a, None)] && result == Success(fd))
                    || (|calls| == 3 && calls[1].Requested? && calls[1].error.Some?
                        && calls == [calls[0], Requested(fd, a, calls[1].error), Closed(fd)]
                        && result == Failure(System(calls[1].error.value))))
              case _ => false
  {
    if calls != [] && calls[0].Socketed? && calls[0].grant.Granted? {
      assert calls == [calls[0]] + calls[1..];
      AttemptsOneExactly(calls[1..], calls[0].grant.fd, a, result);
    }
  }

  /** All that the calls of a TCP connect or bind can be. */
  lemma CreatesTwoExactly(calls: seq<SysCall>, family: nat, protocol: Protocol, a: Request, b: Request, result: Result<int>)
    ensures Creates(calls, family, protocol, [a, b], result) <==>
            calls != [] && match calls[0]
              case Socketed(f, p, Denied(code)) =>
                f == family && p == protocol && calls == [calls[0]] && result == Failure(System(code))
              case Socketed(f, p, Granted(fd)) =>
                && f == family && p == protocol
                && (|| (calls == [calls[0], Requested(fd, a, None), Requested(fd, b, None)] && result == Success(fd))
                    || (|calls| == 3 && calls[1].Requested? && calls[1].error.Some?
                        && calls == [calls[0], Requested(fd, a, calls[1].error), Closed(fd)]
                        && result == Failure(System(calls[1].error.value)))
                    || (|calls| == 4 && calls[2].Requested? && calls[2].error.Some?
                        && calls == [calls[0], Requested(fd, a, None), Requested(fd, b, calls[2].error), Closed(fd)]
                        && result == Failure(System(calls[2].error.value))))
              case _ => false
  {
    if calls != [] && calls[0].Socketed? && calls[0].grant.Granted? {
      assert calls == [calls[0]] + calls[1..];
      AttemptsTwoExactly(calls[1..], calls[0].grant.fd, a, b, result);
    }
  }
}
