# Verified models of cpp-core-systems

Dafny models of four parts of cpp-core-systems, with proofs about them. Dafny
4.11 verifies the whole with `dafny verify dfyconfig.toml`.

**The singly linked list** (`ListNodes.dfy`, `SList.dfy`, `SListRuns.dfy`).
Nodes are heap objects that are linked, relinked and deleted as in
`include/containers/slist.hpp`; a node has a ghost flag `live`, every access
demands it, and `Delete` ends it, so that a verified method neither uses nor
deletes a deleted node. A list keeps the ghost sequence `links`: its sentinel,
then its nodes in order. `Valid` ties the four fields to it. Every operation
states its new links and contents and what it allocates and deletes; an
operation that can throw takes a flag or a budget that says when. `Program` owns
any number of lists. Each run of operations on them computes what it computes on
plain sequences, and the nodes created and not deleted are, at every moment, as
many as the lists count.

**The loopback protocols.** `RoundTrips.dfy` and `Throughput.dfy` make the two
threads of each benchmark a transition system over bounded byte channels,
`Delivery.dfy` does so for `SendAll` in one thread and `ReceiveExact` in another,
and `EchoExample.dfy` for the single thread of the loopback example. A step is one
system call, with whatever number of bytes it moves, together with the thread's
own work up to its next call. The environment interleaves the threads, splits
transfers, interrupts and fails calls, `Shutdown` included. The proofs are about
every run: safety, no deadlock, a bound on its length, and what it means to end
with or without an error. `Transfers.dfy` has the loops `SendAll`,
`ReceiveExact`, the echo server and the comparing client as methods over
`Stream`, one direction of a connection (`Streams.dfy`).

**Descriptors.** `Kernel.dfy` is the operating system: a log of the system calls,
whose outcomes are left to chance, and the descriptors that they leave open;
numbers of closed descriptors may come again. A log of which some call names a
descriptor that is not open cannot arise. `SocketHandle.dfy` and
`Sockets.dfy` are the owning objects. Their contracts give the exact system calls
of each operation (module `SystemCalls`), and so which call each error comes
from. `DescriptorRuns.dfy` states what each operation may do to ownership, proves
that ownership stays exclusive over every run, and runs the operations on the
objects. `ConnectionPair.dfy` is the setup of both benchmarks.

**Addresses and endpoints.** `Addresses.dfy`, `AddressHash.dfy`,
`EndpointNative.dfy`, `Decimal.dfy`, `DottedDecimal.dfy` and `EndpointText.dfy`
have the values, their order, their hashes, the socket address bytes and the
text. Decimal numbers, dotted IPv4 addresses and the endpoint syntax are
concrete. The C library's printer and parser for IPv6 are a parameter `Text6`;
what is asked of it is the predicate `Lawful`: parsing takes back printing, the
printed text is shorter than 46 characters, has a colon, and has no zero
character, bracket or percent sign, and parsing gives sixteen bytes.
`Ipv6Text.dfy` writes out one such pair, with the forms of section 2.2 of RFC
4291, and proves it `Lawful`.

A variable `patience` in the kernel says how often calls will still be
interrupted: any number, but a finite one.

## Model

| member | source | states |
|---|---|---|
| `SListModel.SList.EmplaceBack` | include/containers/slist.hpp:290-309 | the new node comes after all others, which stay as they are; when making it throws nothing has changed |
| `SListModel.SList.EmplaceFront` | include/containers/slist.hpp:311-330 | the new node comes before all others; when making it throws nothing has changed |
| `SListModel.SList.EmplaceAfter` | include/containers/slist.hpp:332-356 | from any position, the sentinel's too, the new element stands right after it, its node is returned, and all other nodes keep their order; strong guarantee when it throws |
| `SListModel.SList.PopBack` | include/containers/slist.hpp:394-426 | on an empty list nothing; else the last node is deleted, and nothing else changes |
| `SListModel.SList.LastTwo` | include/containers/slist.hpp:412-419 | the walk ends at the last two nodes, whatever the length |
| `SListModel.SList.PopFront` | include/containers/slist.hpp:428-447 | on an empty list nothing; else the first node is deleted, and nothing else changes |
| `SListModel.SList.EraseAfter` | include/containers/slist.hpp:449-473 | exactly the node after the position is deleted; the result is the node that then follows, or null |
| `SListModel.SList.EraseRange` | include/containers/slist.hpp:475-484 | for any later last position or the end, exactly the nodes strictly between are deleted, each once, and the result is the last position |
| `SListModel.SList.Clear` | include/containers/slist.hpp:486-500 | every value node is deleted once and the list is empty and valid |
| `SListModel.SList.Destroy` | include/containers/slist.hpp:284-288 | all nodes of the list are deleted |
| `SListModel.SList.Swap` | include/containers/slist.hpp:502-513 | the value nodes change sides, each list keeps its own sentinel, now leading to its new first node; also for a list and itself |
| `SListModel.SList.Moved` | include/containers/slist.hpp:260-268 | the new list has the very nodes of the old one, which is left empty and valid |
| `SListModel.SList.MoveAssign` | include/containers/slist.hpp:277-282 | the target gets the source's nodes and its former ones are deleted; assigned to itself, a list keeps nodes and contents |
| `SListModel.SList.Single` | include/containers/slist.hpp:225-232 | a list of the one element, or nothing at all when making it throws |
| `SListModel.SList.Listed` | include/containers/slist.hpp:234-245 | a list of these elements in new nodes; when the node after any number of them throws, all those made are deleted |
| `SListModel.SList.Copied` | include/containers/slist.hpp:247-258 | an equal list in new nodes; when the node after any number of them throws, all those made are deleted |
| `SListModel.SList.CopyAssign` | include/containers/slist.hpp:270-275 | an equal list in new nodes and the former ones deleted, also from itself; when it throws the target is unchanged |
| `SListModel.SList.Equal` | include/containers/slist.hpp:147-170 | never follows a null pointer on either side, and is true exactly when the contents are equal |
| `SListModel.SList.Print` | include/containers/slist.hpp:127-145 | writes the elements with a separator between each two neighbours, whichever elements repeat |
| `SListModel.JoinedParts` | include/containers/slist.hpp:132-142 | what is written for two parts is what is written for each, with ", " in between; one element alone is written as it is |
| `SListModel.SList.Contains` | include/containers/slist.hpp:515-531 | true exactly when the element is in the list |
| `SListModel.SList.Advance` | include/containers/slist.hpp:88-92 | k increments from before the beginning reach node k, or null after the last |
| `SListModel.SList.Front` | include/containers/slist.hpp:200-201 | the first element |
| `SListModel.SList.Back` | include/containers/slist.hpp:202-203 | the last element |
| `ListNodes.ChainAcyclic` | include/containers/slist.hpp:219-222 | a chain that ends in null visits no node twice |
| `SListRuns.Inserts` | include/containers/slist.hpp:290-356 | element by element: an insertion puts its element at its place and moves what is behind one on |
| `SListRuns.Removes` | include/containers/slist.hpp:394-500 | element by element: a removal takes out just its elements and moves what is behind that many back |
| `SListRuns.ListsAfter` | include/containers/slist.hpp:225-513 | list by list: what construction, copy, move, swap, destruction and operations do to each of the lists |
| `SListRuns.Program.Apply` | include/containers/slist.hpp:225-513 | every operation on any of any number of lists, throwing or not, is the sequence operation on that list and leaves the others alone, with all lists valid and apart |
| `SListRuns.RunGoesOn` | include/containers/slist.hpp:225-513 | a run with one more operation is the run and then that operation |
| `SListRuns.Program.Run` | include/containers/slist.hpp:225-513 | every run computes what it computes on sequences, and nodes created minus nodes deleted is the sum of the sizes |
| `RoundTrips.StepInv` | benchmarks/net/bench_tcp.cpp:147-190 | every call of either thread keeps: channels hold exactly the bytes sent and not received, each the right byte of the stream of requests, within capacity; errors and closed ends go together |
| `RoundTrips.RunSafe` | benchmarks/net/bench_tcp.cpp:161-183 | in every state of every run at most 64 bytes are unread, the client is at most one exchange behind the server and never ahead, and after each exchange its reply is the request |
| `RoundTrips.NoDeadlock` | benchmarks/net/bench_tcp.cpp:161-190 | unless both threads are done, one of them can move bytes, see the peer's shutdown or shut down itself, or else waits for its time-out because its peer's `Shutdown` failed |
| `RoundTrips.NoDeadlockAfterShutdown` | benchmarks/net/bench_tcp.cpp:161-190 | while no `Shutdown` fails, one of them can do so, whatever else fails |
| `RoundTrips.RunEnds` | benchmarks/net/bench_tcp.cpp:161-190 | no run, failing or not, has more than 4 * 64 * (256 + rounds) + 4 calls that are not interrupted |
| `RoundTrips.EndsClean` | benchmarks/net/bench_tcp.cpp:190-195 | when both ends end without error, the send calls and the receive calls of each side have moved 64 * (256 + rounds) bytes, nothing is unread, and there is no payload mismatch |
| `RoundTrips.FaultFreeSucceeds` | benchmarks/net/bench_tcp.cpp:147-202 | a run in which no call fails and which can go no further has succeeded |
| `RoundTrips.CanSucceed` | benchmarks/net/bench_tcp.cpp:147-202 | over every buffer some run without failing calls succeeds |
| `RoundTrips.AnyOutcome` | include/net/tcp_socket.hpp:81-93 | what the runs leave open: a call may be interrupted, may fail, or may move any number of bytes up to what is asked for and what the channel allows |
| `RoundTrips.ErrorsReachBoth` | benchmarks/net/bench_tcp.cpp:167-171 | once both are done, a thread reports an error exactly when it has not completed all its exchanges |
| `Throughput.RunSafe` | benchmarks/net/bench_tcp.cpp:220-250 | in every state of every run received <= sent <= total, and the server is done without error exactly at the total |
| `Throughput.EndsClean` | benchmarks/net/bench_tcp.cpp:253-258 | for every number of MiB, when neither side failed both sides have moved 1048576 times as many bytes: the mismatch branch is unreachable |
| `Throughput.NoDeadlock` | benchmarks/net/bench_tcp.cpp:220-252 | unless both are done, one of them can proceed, or else waits for its time-out because its peer's `Shutdown` failed |
| `Throughput.NoDeadlockAfterShutdown` | benchmarks/net/bench_tcp.cpp:220-252 | while no `Shutdown` fails, one of them can proceed, whatever else fails |
| `Throughput.RunEnds` | benchmarks/net/bench_tcp.cpp:223-248 | no run has more than 2 * total + 4 calls that are not interrupted |
| `Throughput.FaultFreeSucceeds` | benchmarks/net/bench_tcp.cpp:204-265 | a run in which no call fails and which can go no further has delivered everything |
| `Throughput.WholeChunksExactly` | benchmarks/net/bench_tcp.cpp:213-258 | a run without failing calls delivers exactly the total, over every buffer, if and only if the total is a whole number of chunks |
| `Throughput.SmallBufferSticks` | benchmarks/net/bench_tcp.cpp:223-248 | for any other total, and a buffer smaller than what the last chunk exceeds it by, some such run gets stuck |
| `Throughput.LargeBufferOvershoots` | benchmarks/net/bench_tcp.cpp:223-258 | for any other total and a large enough buffer, some such run ends with more received than the total |
| `Delivery.RunSafe` | benchmarks/net/bench_tcp.cpp:104-138 | with sender and receiver in two threads, at every moment of every run, failing ones too, the receiver's buffer is a prefix of the message and then untouched, and what is sent and not received is in the channel |
| `Delivery.Identity` | benchmarks/net/bench_tcp.cpp:104-138 | a receiver that succeeds has the message, and then the sender has succeeded, the calls of each have moved exactly its length, and nothing is left over |
| `Delivery.NoDeadlock` | benchmarks/net/bench_tcp.cpp:104-138 | over any buffer of at least one byte, one of the two can proceed until both are done, or else waits for its time-out because its peer's `Shutdown` failed |
| `Delivery.NoDeadlockAfterShutdown` | benchmarks/net/bench_tcp.cpp:104-138 | while no `Shutdown` fails, one of them can proceed, whatever else fails |
| `Delivery.CanSucceed` | benchmarks/net/bench_tcp.cpp:104-138 | over every buffer some run without failing calls delivers the message |
| `Delivery.RunEnds` | benchmarks/net/bench_tcp.cpp:104-138 | no run has more than two calls per byte, and four, that are not interrupted |
| `Delivery.FaultFreeDelivers` | benchmarks/net/bench_tcp.cpp:104-138 | a run in which no call fails and which can go no further has delivered the message |
| `Transfers.SendAll` | benchmarks/net/bench_tcp.cpp:104-120 | whatever the splitting, a prefix of the buffer is appended once and in order, all of it exactly on success; an error is that of the last call |
| `Transfers.ReceiveExact` | benchmarks/net/bench_tcp.cpp:122-138 | the buffer is filled from the front with the next bytes of the stream, entirely exactly on success, and not touched beyond; an error is that of the last call |
| `Transfers.SendThenReceive` | benchmarks/net/bench_tcp.cpp:104-138 | the two loops over one stream: whatever fails, the buffer begins with what was got of the message and is untouched beyond, no more is got than was sent, and a receiver that succeeds has the message |
| `Transfers.EchoUntilEof` | examples/net/example_tcp_loopback.cpp:93-114 | exactly the bytes received go back, in order; on success all up to the end of the stream, and then the end is signalled |
| `Transfers.CompareEcho` | examples/net/example_tcp_loopback.cpp:116-142 | however the stream is cut into chunks, the verdict is whether the whole of it is the message |
| `EchoExample.EchoMatches` | examples/net/example_tcp_loopback.cpp:85-142 | however transfers are split and whatever fails, the program never finds that the echo differs |
| `EchoExample.WorksExactly` | examples/net/example_tcp_loopback.cpp:85-144 | a run without failing calls always ends by accepting the echo, if and only if each direction can buffer the whole message |
| `EchoExample.SticksWithout` | examples/net/example_tcp_loopback.cpp:1-3 | otherwise some such run waits for ever, as the one thread does not read while it sends |
| `EchoExample.RunEnds` | examples/net/example_tcp_loopback.cpp:85-142 | no run has more than four calls per byte, and four, that are not interrupted |
| `Kernel.Os.OpenSince` | include/net/socket_handle.hpp:96-109 | what is open now is what was open before, changed by the calls made since |
| `Kernel.ConsistentIsOnce` | include/net/socket_handle.hpp:96-109 | in every log that can arise a number is granted between two closings and closed between two grants |
| `Sockets.TransferLength` | include/net/tcp_socket.hpp:171-175 | the length, cut to the largest int |
| `Sockets.AddressNamesFamily` | include/net/detail/socket_helpers.hpp:25-26 | the address bytes of an endpoint have length 16 or 28, name the family 2 or 10 that its sockets are made for, and are read back as the endpoint |
| `Sockets.CreateSocket` | include/net/detail/socket_helpers.hpp:19-32 | one socket call for a known version; its descriptor is owned by the result, or its error is |
| `Sockets.CreateTcpSocket` | include/net/detail/tcp_helpers.hpp:22-36 | a socket that cannot be configured is closed again, and then exactly the descriptors open before are open |
| `Sockets.QueryEndpoint` | include/net/detail/socket_helpers.hpp:34-56 | the endpoint in the address the kernel tells, or the error it gives, or an invalid argument for other addresses |
| `Sockets.TcpSocket.Connect` | include/net/tcp_socket.hpp:42-62 | socket, configure, connect to the endpoint's address bytes, in this order up to the first failure, after which the descriptor is closed and the object still invalid; on success it owns the one new descriptor |
| `Sockets.TcpSocket.Send` | include/net/tcp_socket.hpp:66-94 | one call that is not interrupted, of the capped length; its count or its error is the result, and a prefix of that size is appended |
| `Sockets.TcpSocket.Receive` | include/net/tcp_socket.hpp:99-123 | one call that is not interrupted; the next bytes of the stream land where the buffer part begins and nothing else is written; zero means the end of the stream |
| `Sockets.TcpSocket.Shutdown` | include/net/tcp_socket.hpp:126-151 | rejects other directions before any call; else one call, whose outcome is the result, and the outgoing stream ends exactly when a direction with sending succeeds |
| `Sockets.UdpSocket.Bind` | include/net/udp_socket.hpp:38-57 | socket and bind, with the descriptor closed when the second fails; the object is valid exactly on success |
| `Sockets.UdpSocket.SendTo` | include/net/udp_socket.hpp:62-103 | one datagram with the whole buffer to the address bytes of the destination: the size when the call gives that count, an error for any other count, the error of a call that fails; a first send makes the socket, keeps just that descriptor on success and closes it otherwise; an existing socket is kept and reused |
| `Sockets.UdpSocket.ReceiveFrom` | include/net/udp_socket.hpp:109-158 | takes one datagram: whole with its sender, or consumed and reported when it does not fit or its sender is unknown; with an error none |
| `Sockets.KnownSenderReceived` | include/net/udp_socket.hpp:145-157 | a datagram that fits, from the address bytes of any endpoint, gives its size, its bytes and that endpoint |
| `Sockets.TcpListener.Bind` | include/net/tcp_listener.hpp:25-44 | socket, configure, bind in this order up to the first failure, after which the descriptor is closed and the object still invalid |
| `Sockets.TcpListener.Listen` | include/net/tcp_listener.hpp:46-61 | rejects a backlog that is not positive before any call, else one call whose outcome is the result |
| `Sockets.TcpListener.Accept` | include/net/tcp_listener.hpp:65-90 | repeats interrupted calls; an accepted descriptor that cannot be configured is closed; the listener keeps its own in all cases |
| `Sockets.AcceptsExactly` | include/net/tcp_listener.hpp:71-89 | all that the calls of an accept can be, with the result of each case |
| `SystemCalls.CreatesOneExactly` | include/net/udp_socket.hpp:44-56 | all that the calls of a UDP bind can be, with the result of each case: the descriptor, or the error of the call that failed, after which the descriptor is closed |
| `SystemCalls.CreatesTwoExactly` | include/net/tcp_socket.hpp:49-61 | the same for a TCP connect or bind |
| `SystemCalls.CreationLeaksNothing` | include/net/detail/tcp_helpers.hpp:22-36 | whichever request of whatever list fails, the calls leave open what was open before, and the new descriptor exactly on success |
| `SystemCalls.CreationFine` | include/net/tcp_socket.hpp:49-61 | making a socket succeeds exactly when none of its calls fails, and otherwise gives the error of one that did |
| `ConnectionPair.SetOptions` | benchmarks/net/bench_tcp.cpp:35-61 | both timeouts of five seconds and the delay option, in this order up to the first failure |
| `ConnectionPair.ConnectPair` | benchmarks/net/bench_tcp.cpp:63-102 | on success exactly two more descriptors are open, one owned by each end, and the calls were, in order: listener at a free loopback port, its address asked, client connected to that address, accepted, timeouts of five seconds and the delay option at the client and then at the server, listener closed; on failure nothing more is open and the error is that of a call that failed |
| `SocketHandleModel.SocketHandle.MovedFrom` | include/net/socket_handle.hpp:42-45 | the descriptor changes owner |
| `SocketHandleModel.SocketHandle.MoveAssign` | include/net/socket_handle.hpp:47-55 | the former descriptor is closed and the other's taken over; nothing happens to a handle assigned to itself |
| `SocketHandleModel.SocketHandle.Release` | include/net/socket_handle.hpp:81-85 | the descriptor is handed out and stays open |
| `SocketHandleModel.SocketHandle.Reset` | include/net/socket_handle.hpp:87-94 | the former descriptor is closed unless it is the new one |
| `SocketHandleModel.SocketHandle.Close` | include/net/socket_handle.hpp:96-133 | closes what is owned, once, and is then invalid |
| `SocketHandleModel.SocketHandle.Swap` | include/net/socket_handle.hpp:135-139 | descriptors change sides |
| `DescriptorRuns.EffectKeepsExclusive` | include/net/socket_handle.hpp:33-139 | whatever an operation does and whether or not it fails, each open descriptor has one owner, an object or the program that released it |
| `DescriptorRuns.RunKeepsExclusive` | include/net/socket_handle.hpp:33-139 | so it is at every moment of every run, with numbers used again |
| `DescriptorRuns.NothingLeaks` | include/net/socket_handle.hpp:33-36 | once no object owns a descriptor, only released ones are open |
| `DescriptorRuns.World.Apply` | include/net/socket_handle.hpp:26-162 | construct, adopt, move, swap, release, reset, close, destroy, connect, bind, accept and send do to the objects what the ownership rules say, with the system calls that belong to each and every outcome of the kernel |
| `DescriptorRuns.World.Run` | include/net/socket_handle.hpp:26-162 | a program's run is a run in that sense, ownership is exclusive at its end, and over its whole log no descriptor was closed twice or granted while open |
| `Addresses.FromBytes` | include/net/ip_address.hpp:36-55 | accepted exactly for a known version and its number of bytes, and then the address has these bytes and zeros behind them |
| `Addresses.Any` | include/net/ip_address.hpp:117-123 | all bytes are zero, in the version asked for |
| `Addresses.Loopback` | include/net/ip_address.hpp:97-115 | 127.0.0.1 or ::1 |
| `Addresses.SameAddressIsEquality` | include/net/ip_address.hpp:167-176 | comparing the bytes in use decides equality of whole addresses |
| `Addresses.CompareBytesIsNumeric` | include/net/ip_address.hpp:186-188 | the byte order is the order of the numbers in network byte order |
| `Addresses.BigEndianOf4` | include/net/ip_address.hpp:186-188 | the number of an IPv4 address, its first byte counting most |
| `Addresses.AddressOrderIsNumeric` | include/net/ip_address.hpp:178-189 | within a version the order of the 32- or 128-bit numbers, and all IPv4 before all IPv6 |
| `Addresses.MakeEndpointExactly` | include/net/socket_endpoint.hpp:23-28 | the constructor keeps address, port and IPv6 scope, gives an IPv4 endpoint no scope, and makes all such endpoints |
| `Addresses.EndpointOrderIsLexicographic` | include/net/socket_endpoint.hpp:222-234 | less is a smaller address, or the same and a smaller port, or the same again and a smaller scope |
| `Addresses.EndpointOrderIsByKey` | include/net/socket_endpoint.hpp:222-234 | the order of version, address number, port and scope |
| `Addresses.EndpointOrderIsTotal` | include/net/socket_endpoint.hpp:216-234 | a strict total order whose equality is `operator==` |
| `AddressHash.XorBit` | include/net/ip_address.hpp:205 | the exclusive or has a bit set where exactly one of the two has |
| `AddressHash.HashIsFnv` | include/net/ip_address.hpp:192-210 | the hash is the last of the states that begin with the offset basis and take in the version and then the bytes in order, each by exclusive or and a multiplication with the prime, in either width |
| `AddressHash.EndpointHashIsFnv` | include/net/socket_endpoint.hpp:239-251 | the same with the port and then the scope after the address |
| `AddressHash.PrimeInverts` | include/net/ip_address.hpp:195 | multiplying by the prime loses nothing modulo 2^64 or 2^32 |
| `AddressHash.MixInjectiveInInput` | include/net/ip_address.hpp:205-206 | one step keeps different inputs apart |
| `AddressHash.MixAllInjectiveInState` | include/net/ip_address.hpp:203-207 | any further steps keep different states apart |
| `AddressHash.Hash` | include/net/ip_address.hpp:191-210 | the loop computes the specified hash and stays in range |
| `AddressHash.AddressesOneByteApart` | include/net/ip_address.hpp:191-210 | addresses of a version that differ in one byte have different hashes |
| `AddressHash.EndpointsOneFieldApart` | include/net/socket_endpoint.hpp:238-251 | endpoints that differ in the port only, in the scope only, or only in addresses with different hashes, have different hashes |
| `AddressHash.EqualHashes` | include/net/socket_endpoint.hpp:216-251 | what compares equal has one hash |
| `EndpointNative.Layout` | include/net/socket_endpoint.hpp:150-174 | every byte: port and address in network order at their places, family and scope in the host's order, zeros for padding, flow information and the rest |
| `EndpointNative.ScopeLayout` | include/net/socket_endpoint.hpp:169 | the four bytes of the scope, most significant first or last as the host has it |
| `EndpointNative.AcceptedExactly` | include/net/socket_endpoint.hpp:177-211 | accepted are exactly a length of at least 16 with family 2, and one of at least 28 with family 10 |
| `EndpointNative.AcceptedFields` | include/net/socket_endpoint.hpp:184-209 | what is accepted is read from its bytes: version, port, address and IPv6 scope |
| `EndpointNative.NativeRoundTrip` | include/net/socket_endpoint.hpp:150-212 | an endpoint comes back from its bytes in any memory that has room for them, with their length or a longer one, and with no shorter length |
| `EndpointNative.NativeNormalised` | include/net/socket_endpoint.hpp:176-212 | bytes taken in and given out again keep family, port, address and scope, and are zero elsewhere, flow information included |
| `EndpointNative.NormalisedIsFixed` | include/net/socket_endpoint.hpp:150-212 | doing that again changes nothing |
| `Decimal.ValueIsPositional` | include/net/socket_endpoint.hpp:59-143 | in front of n more digits a number counts ten to the n as much |
| `Decimal.ValueOfDigit` | include/net/socket_endpoint.hpp:59-143 | the ten digits in their order |
| `Decimal.ToDecimalValue` | include/net/socket_endpoint.hpp:59-60 | a printed number has the value printed |
| `Decimal.ParseWholeExactly` | include/net/socket_endpoint.hpp:137-143 | accepted are one or more digits whose value is in range, and nothing else |
| `Decimal.ParsePrinted` | include/net/socket_endpoint.hpp:59-143 | a printed number within range is read as the same number |
| `DottedDecimal.PrintedExactly` | include/net/ip_address.hpp:152-163 | an IPv4 address is printed as its four numbers without superfluous zeros, dots in between |
| `DottedDecimal.ParsePrintedBytes` | include/net/ip_address.hpp:78-83 | a printed IPv4 address is read as the same bytes |
| `DottedDecimal.PrintParsedBytes` | include/net/ip_address.hpp:78-83 | an IPv4 address has one spelling |
| `EndpointText.ParsePrintedAddress` | include/net/ip_address.hpp:58-95 | a printed address of either version is read as the same address |
| `EndpointText.AcceptedV4` | include/net/ip_address.hpp:58-83 | an IPv4 address is accepted exactly in the spelling that is printed |
| `EndpointText.AcceptedV6` | include/net/ip_address.hpp:58-95 | an IPv6 address is accepted exactly when the C library reads it, it has 1 to 45 characters, none of them zero, and is not the text of an IPv4 address |
| `EndpointText.PlainAccepted` | include/net/socket_endpoint.hpp:120-145 | an IPv4 address, a colon and any spelling of a port are accepted as that endpoint |
| `EndpointText.BracketedAccepted` | include/net/socket_endpoint.hpp:74-117 | so are a bracketed IPv6 address, a colon and a port |
| `EndpointText.ScopedAccepted` | include/net/socket_endpoint.hpp:86-117 | so is that with a percent sign and any spelling of a scope before the bracket closes |
| `EndpointText.AcceptedSpelling` | include/net/socket_endpoint.hpp:66-146 | nothing else is accepted |
| `EndpointText.TextExactly` | include/net/socket_endpoint.hpp:54-64 | the text to the character: address, colon and port; brackets around an IPv6 address, with a percent sign and the scope inside only when it is not zero; numbers without superfluous zeros |
| `EndpointText.TextRoundTrip` | include/net/socket_endpoint.hpp:54-146 | every constructible endpoint is what parsing its text gives |
| `EndpointText.AcceptedRoundTrip` | include/net/socket_endpoint.hpp:54-146 | whatever spelling was accepted, printing and parsing the result gives the same endpoint |
| `Ipv6Text.ReadShown` | include/net/ip_address.hpp:151-163 | a printer and parser for the IPv6 forms: reading takes back printing, and the text is plain and short |
| `Ipv6Text.EndpointRoundTrip` | include/net/socket_endpoint.hpp:54-146 | with them the endpoint round trip needs no hypotheses |

## Left out

- SListModel.SList.Front: gives the value, not a reference; an element is a constant of its node, so assigning through a reference or an iterator is not modelled.
- SListModel.SList.Back: the same.
- SListModel.SList.Equal: elements are compared by Dafny's equality; an element type whose `==` is not an equivalence is not modelled.
- SListModel.SList.EmplaceBack: covers `emplace_back` and both `push_back`; where the element comes from (copied, moved, built in place) is not distinguished, and the same holds for the other insertions.
- SListModel.SList.Print: the output of an element is a parameter, and the stream is a string.
- ListNodes.ChainAcyclic: addresses are abstract, so the reuse of freed memory is not modelled.
- `m_size` is unbounded; a list of 2^64 nodes does not fit into memory. `max_size()` is left out.
- The const and non-const variants of iterators and accessors are one each.
- RoundTrips.RunSafe: a thread's work between two calls is part of the step of the earlier call; a `Shutdown` that does not fail takes effect at once, for both directions; the latches and the start order of the threads are not modelled, as no property rests on them; `WarmupRounds + rounds` is unbounded, and the accepted arguments are at most 1000000.
- RoundTrips.RunEnds: counts calls that are not interrupted; that interruptions end is up to the environment.
- Throughput.EndsClean: the wrap-around of `streamMiB * MiB` in 64 bits is out of reach of the accepted arguments (at most 4096) and not modelled.
- EchoExample.WorksExactly: begins with the connection made; a byte sent can be read at once, and what a direction buffers is one number.
- Transfers.SendAll: which stream belongs to a descriptor is known to the caller, who passes it along; that the two directions of one connection belong to two sockets is not modelled further.
- Transfers.EchoUntilEof: the writer has any number of bytes still to come, but a finite one; against a writer without end the loop does not end. The same holds for the comparing client.
- Sockets.TcpSocket.Shutdown: what shutting down the receiving side does to data that still arrives is left to the kernel.
- Sockets.TcpListener.Accept: the peer of an accepted connection is not identified.
- ConnectionPair.ConnectPair: that the accepted connection is the one the client made is up to the kernel.
- SocketHandleModel.SocketHandle.Close: a failing `close` counts as closed, as on Linux; the message printed in debug builds is left out, and so are order and hash of handles.
- AddressHash.EndpointsOneFieldApart: collisions of endpoints that differ in more than one field exist and are not ruled out.
- EndpointNative.Layout: Linux layouts of the socket addresses; Windows and BSD have other family numbers and, on BSD, a length byte.
- DottedDecimal.ParsePrintedBytes: `inet_ntop` and `inet_pton` for IPv4 are written out as POSIX describes them; their code is not part of this model.
- Ipv6Text.ReadShown: one printer and one parser that follow common practice; another C library may print other spellings, and `EndpointText` then needs only `Lawful`.
- `SocketError` categories and `SocketResult` are a plain result datatype; `SocketRuntime`, `platform.hpp` and Windows branches are left out.
- Timing, printing, command lines, `scope_timer.hpp`, `print.hpp` and `traits.hpp` are left out.
