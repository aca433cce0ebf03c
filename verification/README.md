# nsncd in Dafny

nsncd answers the glibc name service protocol (nscd, version 2) on a Unix socket without caching.
This project models three parts of it and proves what they promise:

- **The thread pool** (`src/work_group.rs` and the loops of `src/main.rs`). W workers and one acceptor
  share a mutex around the index of the first thread to exit, a condition variable and a rendezvous channel.
  `WorkGroup.dfy` is the transition system: one program counter per thread for any W, one for `run` and
  `main`, the mutex owner, the recorded index, which channel ends are alive, and histories of accepted,
  handed-over, answered, given-up, lost and dropped streams. Actions include spurious wakeups, send timeouts, accept
  errors, a read or a write that waits for its client, and a panic in any worker while it handles a request.
  A run is any sequence of enabled actions from the start. `WorkGroupSafety.dfy` has the invariants,
  `WorkGroupJoin.dfy`, `WorkGroupStreams.dfy` and `WorkGroupShutdown.dfy` what follows for every run.
  `WorkGroupTraces.dfy` says that every thread's steps come in the order of the source's statements,
  `WorkGroupService.dfy` ties each worker's steps to the requests it handles, and `WorkGroupWitnesses.dfy` has
  complete runs: one that waits and is notified, and three that show what the pool does not promise.
- **The wire codec** (`src/protocol.rs` and the `serialize_*` functions of `src/handlers.rs`). Each serializer
  is a method with the source's loops, proved equal to a function `Response`. Each reply has a strict client-side
  `Decode`, and a lemma says that a buffer decodes to a value and a remainder exactly when it is that value's reply
  followed by that remainder; the `Layout` lemmas say which field is at which offset. `Dispatch.dfy` is the request dispatch and `EndToEnd.dfy` joins client, server and client.
- **The resolver bridge and the configuration** (`src/ffi.rs`, `src/config.rs`): the loops that call the C resolver again
  with a larger buffer, the walk over a C hostent, and the fold over the environment. `ConfigMeaning.dfy` says what every
  environment means in the names, values and defaults of the source's documentation.

Results that differ from what the code's own documentation suggests:

- `src/main.rs:98-102` says the process starts panicking if a thread unwound with a panic. Only the first thread to record
  itself counts: `EndIsSettledWhenRecorded` has the exact condition, and `PanicCanBeSwallowed` a complete run in which a worker
  panics, another worker is the one recorded although the acceptor stopped first, and `main` returns Ok. If the panic is recorded
  first, nothing can keep the process from ending by it (`PanicEndsTheProcess`), and twelve bytes from one client are enough to
  make a worker panic (`TwelveBytesAbort` and `WhenWorkersPanic`).
- `src/main.rs:104-105` tries to exit gracefully. A client that connects and sends nothing prevents that for as long as it likes,
  since no timeout is set on the stream: `ShutdownTerminates` says that this is the only way a shutdown can fail to end, and
  `SilentClientStalls` and `DeafClientStalls` are complete runs to such states.
- The order of the environment does matter to `from_env` when a count is set more than once, since `env::var` finds the first
  entry. `OrderIrrelevantIff` has the exact condition and `OrderCanMatter` an example.
- Parsing panics, instead of returning an error, exactly for the headers named by `ParseAborts`: a length field from -12 to -1, and,
  in a build with overflow checks, one that overflows when 12 is added.
- Replies about hosts and addresses cut lengths off to 32 bits. `HostRoundTrip` and `AddrInfoRoundTrip` say that a client reads back
  what was sent if and only if nothing is cut off, and `AddressInfo`, `HostByAddr` and `HostByName` carry this to whole exchanges.

Assumptions built into the model: the byte order is little-endian, as in the bytes listed at `src/handlers.rs:738-746`; a mutex guard
taken inside `Context::drop` while its thread is unwinding does not poison the mutex; a rendezvous handoff is one atomic step of sender
and receiver; handling a request, between reading it and writing the reply, ends; an allocation fails only by ending the process or
unwinding its thread; in a worker's closure the `Context` parameter is dropped before the captured receiver; and once
`main` has ended, no thread steps any more.

## Model

| member | source | states |
|---|---|---|
| WorkGroup.Slot.Record | src/work_group.rs:39-44 | stores a thread's index unless one is stored already |
| WorkGroup.Slot.IsShutdown | src/work_group.rs:32-35 | true iff an index is stored |
| WorkGroup.Group.Add | src/work_group.rs:55-61 | appends the closure to the group |
| WorkGroup.Group.SpawnAll | src/work_group.rs:72-81 | handle k belongs to the thread given index k and started on closure k |
| WorkGroup.BuildGroup | src/main.rs:163-184 | the workers come first and the acceptor, added by main, is last |
| WorkGroup.StartGroup | src/work_group.rs:72-81 | building the group and spawning it ends in the state that the transition system reaches from its start by spawn steps |
| WorkGroupSafety.StepKeepsInv | src/work_group.rs:31-95 | every step of every thread keeps the mutex, recorded-index, handle, join, wakeup and channel invariants |
| WorkGroupSafety.ReachableInv | src/main.rs:97-180 | those invariants hold in every reachable state, for any number of workers |
| WorkGroupJoin.MutualExclusion | src/work_group.rs:32-45 | at most one of the threads and `run` is inside the mutex |
| WorkGroupJoin.JoinUnderLockIsSafe | src/work_group.rs:84-93 | while `run` joins with the guard held, the joined thread never wants the mutex again in any continuation and, until it has ended, has an enabled lock-free step that brings its end nearer |
| WorkGroupJoin.NoLostWakeup | src/work_group.rs:40-43 | if `run` waits although a thread is recorded, that thread's notify_all is still to come and will wake it |
| WorkGroupJoin.WaitsUntilRecorded | src/work_group.rs:84-92 | holding the mutex, `run` goes on to join iff an index is recorded, and otherwise releases the mutex and waits |
| WorkGroupJoin.LeavesTheWait | src/work_group.rs:86-88 | only a notify_all or a spurious wakeup ends the wait, and `run` then takes the mutex again |
| WorkGroupJoin.RecordedIsFirstForGood | src/work_group.rs:41-92 | the index is written once, names the first thread to reach the slot, is a valid index to remove, and never changes in any continuation |
| WorkGroupJoin.RecordExits | src/work_group.rs:39-44 | storing the indices into the object in the mutex, in the order in which the threads of a reachable state got to it, leaves it holding the recorded index |
| WorkGroupJoin.RunReturnsTheFirstExiter | src/work_group.rs:92-93 | `run` returns the first exiter's outcome and the other handles in spawn order; in the end `main` has re-raised iff that outcome is a panic |
| WorkGroupJoin.EndIsSettledWhenRecorded | src/main.rs:97-111 | as soon as an index is recorded, every run that ends re-raises iff the recorded thread is leaving by a panic, and returns Ok iff it is not |
| WorkGroupJoin.GracefulMeansAcceptorStopped | src/main.rs:155-159 | when `run` returns Ok the acceptor has left its loop and dropped tx, even if a worker is the one recorded |
| WorkGroupJoin.FinishedMeansAllExited | src/main.rs:106-110 | when `main` returns Ok every thread has ended |
| WorkGroupStreams.StreamsAreConserved | src/main.rs:123-160 | handed-over streams are a prefix of the accepted ones, in order; at most one more is held or dropped by the acceptor |
| WorkGroupStreams.ServedExactlyOnce | src/main.rs:176-180 | the streams handed to a worker are, in order, those it finished and at most one more: the one it is serving, or the one it lost, exactly when it left by a panic |
| WorkGroupStreams.AnsweredByWriting | src/main.rs:212-220 | a stream is logged as answered by the return of write_all alone, and as given up by an early return alone |
| WorkGroupStreams.FinishedStreams | src/main.rs:186-229 | the streams workers finish are those they answer and those they give up |
| WorkGroupStreams.InProcessBound | src/main.rs:123-180 | accepted streams neither finished, lost nor dropped never exceed the worker count plus one |
| WorkGroupStreams.GracefulShutdownServesAll | src/main.rs:155-180 | after a graceful shutdown every accepted stream has been finished, but for at most one that the acceptor dropped and exactly one for each worker that panicked |
| WorkGroupStreams.DisconnectsAreReal | src/main.rs:141-144 | a worker finds the channel closed iff the acceptor has dropped tx; the acceptor iff every worker has ended; a worker that leaves earlier has panicked |
| WorkGroupStreams.AtMostOneHandoffAfterShutdown | src/main.rs:124-147 | after an exiter is recorded at most one more stream reaches a worker, and none unless it had passed its is_shutdown check |
| WorkGroupShutdown.StepDecreases | src/work_group.rs:84-93 | once an exiter is recorded every step of every thread decreases one measure |
| WorkGroupShutdown.DeadlockFree | src/main.rs:97-180 | no reachable state is stuck; at worst the idle pool waits for a client to connect, or `main` to join a worker blocked on its client |
| WorkGroupShutdown.ShutdownTerminates | src/main.rs:97-111 | after an exiter is recorded at most 14 steps per thread and 7 more remain, and a run that can go no further without an outside event has ended with `main`, unless `main` is joining a worker blocked on its client |
| WorkGroupShutdown.PanicEndsTheProcess | src/main.rs:98-102 | if the recorded thread is leaving by a panic, a run that can go no further without an outside event has re-raised it, whatever clients do |
| WorkGroupTraces.StepsInOrder | src/main.rs:123-229 | of two successive steps of a worker or of the acceptor, in any run, the second follows the first in the source: receive, read, handle, write; accept, check, send; the way out |
| WorkGroupTraces.StartsInOrder | src/main.rs:123-178 | a thread's first step is its closure's first statement |
| WorkGroupTraces.AcceptorDecides | src/main.rs:124-152 | after its shutdown check the acceptor leaves the loop iff an index is recorded or the accept failed, and otherwise sends that stream |
| WorkGroupTraces.MainInOrder | src/work_group.rs:72-95 | successive steps of `run` and `main` follow each other in the source; having found nothing recorded, `run` takes the mutex again only after a wakeup in between |
| WorkGroupService.HandlingFollowsTheRequest | src/main.rs:186-229 | a worker handling a request goes on to write, returns to the receive loop, or unwinds, as `handle_stream` does for the bytes its client sent |
| WorkGroupService.ServedAsAsked | src/main.rs:186-229 | in any such run, answered streams are ones with a reply, streams given up have none, and lost ones made their worker unwind |
| WorkGroupService.EveryReplyIsWritten | src/main.rs:97-229 | after a graceful shutdown every stream handed to a worker has met the fate its request asked for; every reply there was has been written |
| WorkGroupService.PanicHasACause | src/protocol.rs:101-107 | a thread that leaves by a panic was handed a stream whose first bytes make parsing panic, unless memory ran out |
| WorkGroupWitnesses.PanicCanBeSwallowed | src/main.rs:97-111 | a complete run in which a worker panics and `main` still returns Ok |
| WorkGroupWitnesses.SilentClientStalls | src/main.rs:104-190 | a complete run to a graceful shutdown in which the only possible step is that a client sends something or hangs up |
| WorkGroupWitnesses.DeafClientStalls | src/main.rs:104-220 | the same with a client that sends a request and does not take the reply |
| WorkGroupWitnesses.NotifyEndsTheWait | src/work_group.rs:38-88 | a run, for any number of workers, in which `run` waits, a thread is recorded, and its notify_all ends the wait |
| WorkGroupWitnesses.OneHandoffAfterShutdown | src/main.rs:124-147 | the one handoff that may follow the recording of an exiter does happen |
| WireFormat.LowIsRemainder | src/handlers.rs:452-460 | the bits that `as i32` keeps are the remainder modulo 2^32 |
| WireFormat.LeExact | src/protocol.rs:94-101 | four bytes read as an integer iff they are that integer's encoding |
| WireFormat.WordBytes | src/protocol.rs:94-101 | the lowest byte of an integer goes first |
| WireFormat.WordsExact | src/protocol.rs:119-144 | a header reads back iff the buffer is its words followed by the remainder |
| WireFormat.StringsExact | src/handlers.rs:317-321 | length-prefixed NUL-terminated strings read back iff the buffer is those strings followed by the remainder |
| UserReply.SerializeUser | src/handlers.rs:293-327 | computes `Response`, whose meaning UserRoundTrip states |
| UserReply.UserRoundTrip | src/handlers.rs:293-327 | a buffer decodes to a user (or a miss) and a remainder iff it is that reply and that remainder; the reply exists iff name, dir and shell are NUL-free and all lengths fit |
| UserReply.UserLayout | src/handlers.rs:305-325 | a missing user is 36 zero bytes; a found one has version 2, found 1, the lengths, uid and gid at the offsets of PwResponseHeader, and the five strings after them |
| UserReply.UserPrefixFree | src/handlers.rs:316-324 | no user's reply is a prefix of another's |
| GroupReply.SerializeGroup | src/handlers.rs:331-370 | computes `Response`, whose meaning GroupRoundTrip states |
| GroupReply.GroupRoundTrip | src/handlers.rs:331-370 | a buffer decodes to a group (or a miss) and a remainder iff it is that reply and that remainder; the reply exists iff names are NUL-free and counts and lengths fit |
| GroupReply.GroupLayout | src/handlers.rs:348-368 | a missing group is 24 zero bytes; a found one has the fields of GrResponseHeader, then the member lengths, then the strings |
| GroupReply.GroupPrefixFree | src/handlers.rs:356-368 | no group's reply is a prefix of another's |
| InitgroupsReply.SerializeInitgroups | src/handlers.rs:374-388 | computes `Response`, whose meaning InitgroupsRoundTrip states |
| InitgroupsReply.InitgroupsRoundTrip | src/handlers.rs:374-388 | the same exactness for group lists; Ok iff the count and every gid fit an i32; 12 bytes and 4 per gid |
| InitgroupsReply.InitgroupsLayout | src/handlers.rs:374-388 | version 2, found 1 even for an empty list, the count, and the gids in order |
| HostReply.SerializeHostent | src/handlers.rs:390-490 | computes `Response`, whose meaning the next three rows state |
| HostReply.HostRoundTrip | src/handlers.rs:390-490 | name, aliases, addresses and herrno read back with the remainder iff there is one family and no length is cut off; without addresses the error code reads back |
| HostReply.MatchesListedBytes | src/handlers.rs:726-748 | the reply for the host of the test is byte for byte the one listed at src/handlers.rs:738-746 |
| HostReply.HostClassification | src/handlers.rs:420-487 | Err iff both families occur; the exact 32-byte reply without addresses; otherwise the computed total length |
| HostReply.HostHeaderLayout | src/handlers.rs:449-463 | the eight fields of a found host, family 2 with width 4 or 10 with 16; of lengths and counts the low 32 bits |
| HostReply.HostBodyLayout | src/handlers.rs:442-486 | after the header come the name, the alias lengths, the octets of every address in order, and the aliases |
| Addresses.AddrAt | src/handlers.rs:521-530 | the offset of the k-th address among mixed ones, and its octets in order |
| AddrInfoReply.SerializeAddressInfo | src/handlers.rs:517-556 | computes `Response`, whose meaning the next two rows state |
| AddrInfoReply.AddrInfoRoundTrip | src/handlers.rs:517-556 | a mixed list of unpadded addresses reads back through the trailing family array, with its name and remainder, iff the name is NUL-free and no length is cut off |
| AddrInfoReply.AddrInfoLengths | src/handlers.rs:532-554 | Err iff there are addresses and the name has a NUL; total length from the count of each family; 24 bytes without addresses |
| AddrInfoReply.AddrInfoHeaderLayout | src/handlers.rs:535-542 | the six fields of a found name; of lengths and counts the low 32 bits |
| AddrInfoReply.AddrInfoBodyLayout | src/handlers.rs:545-549 | after the header come the addresses, a byte 2 or 10 for the family of each, and the name |
| AddrInfoReply.AddrInfoMissLayout | src/handlers.rs:550-554 | without addresses the reply is the words 2, 0, 0, 0, 0, 0 |
| Protocol.CodeExact | src/protocol.rs:48-75 | codes 0 to 22 and the request types correspond one to one |
| Protocol.CodesInUse | src/protocol.rs:48-75 | the code numbers of the ten types that are looked up |
| Protocol.ParseInvertsEncode | src/protocol.rs:91-109 | parsing yields a request iff the buffer begins with its encoding and the key's end fits an i32 |
| Protocol.ParseMeaning | src/protocol.rs:91-109 | a request is understood iff its fields are version 2, a known code and a length that fits, and its key is all there |
| Protocol.ParseErrors | src/protocol.rs:91-103 | which error each unusable header gives |
| Protocol.ParseAborts | src/protocol.rs:101-107 | exactly which headers make parsing panic |
| Protocol.TwelveBytesAbort | src/protocol.rs:101-107 | a header of twelve bytes with key length -1 makes parsing panic in any build |
| Protocol.ParseRejectsTheRest | src/protocol.rs:91-103 | with a length field in range, parsing is an error iff the buffer begins with no encoding |
| ResolverBridge.FromLibcHostent | src/ffi.rs:136-195 | Ok iff the family is 2 with width 4 or 10 with width 16 and there is a name; then the host has that name, every alias and every address before the null pointers, in order, with their bytes in order |
| ResolverBridge.MirrorsOnce | src/ffi.rs:136-195 | those facts leave only one host |
| ResolverBridge.LocalhostIsRead | src/ffi.rs:136-195 | for example, the C hostent of 127.0.0.1 is usable and becomes that address |
| ResolverBridge.LastCallExact | src/ffi.rs:234-296 | a call is the last one iff every earlier call is answered with ERANGE below the limit, it is not, and its buffer can be had |
| ResolverBridge.NameCallExact | src/ffi.rs:275-296 | a lookup by name ends with the first reply whose code is not 34, or every reply that there is memory for has code 34 |
| ResolverBridge.AddrCallExact | src/ffi.rs:233-254 | a reverse lookup ends with the first reply whose code is not 34 or whose buffer has 10000000 bytes, or memory runs out before that |
| ResolverBridge.ExactDoubling | src/ffi.rs:232-249 | with an exact allocator the buffer of call k has 1024 times 2 to the k bytes |
| ResolverBridge.GetHostByAddr | src/ffi.rs:216-255 | makes at most 15 calls; returns what the first reply that is not 34, or that had 10000000 bytes, unmarshals to; runs out of memory iff no call for which there is memory is such a one |
| ResolverBridge.FifteenCallsHappen | src/ffi.rs:233-253 | with an exact allocator and a resolver that always answers ERANGE the 15th call is the last, so the bound is met |
| ResolverBridge.GetHostByName2 | src/ffi.rs:260-297 | returns what the first reply that is not 34 unmarshals to; runs out of memory iff every reply for which there is memory is 34; the calls are logarithmic in the memory |
| ResolverBridge.NameLookupIsLogarithmic | src/ffi.rs:275-295 | if some size is always enough and can be had, the lookup returns after a number of calls logarithmic in it |
| Config.RequestTypeSet.Insert | src/config.rs:46-54 | the bit array represents the old set with the type added; reports whether it is new |
| Config.RequestTypeSet.Contains | src/config.rs:56-59 | membership in the represented set |
| Config.ShouldIgnore | src/config.rs:183-185 | true iff the type is in the represented set |
| Config.BuildOpsMap | src/config.rs:147-153 | the map finds each database's types |
| Config.FromEnv | src/config.rs:146-181 | Ok iff no variable is an error; the bit array is then the union of the databases set to true; otherwise the first ignore variable's error, or else a count's |
| ConfigMeaning.SettleMeaning | src/config.rs:120-181 | exactly which environments give a configuration, and which: the documented names with true or false, the types each turns off, the first entry of each count, the defaults 8 and 3 |
| ConfigMeaning.FirstErrorMeaning | src/config.rs:157-167 | the first ignore variable that is not well-formed decides the error: an unknown name, or a value that is no boolean |
| ConfigMeaning.CountErrorMeaning | src/config.rs:198-211 | a count is an error because its first entry is no number or is zero |
| ConfigOrder.IgnoredInAnyOrder | src/config.rs:157-172 | the ignore variables give one answer in any order, duplicates included |
| ConfigOrder.OrderIrrelevantIff | src/config.rs:157-211 | the order of the environment is irrelevant iff some variable is an error in every order or no count is set to two different meanings |
| ConfigOrder.NoDuplicatesNoOrder | src/config.rs:157-211 | without duplicate names the order never matters |
| ConfigOrder.OrderCanMatter | src/config.rs:198-211 | two entries whose order decides between Ok and Err |
| EndToEnd.IgnoreRule | src/handlers.rs:51-54 | types of a database set to true get the empty reply whatever the key and the lookups; all other requests are handled as if nothing were configured |
| EndToEnd.RequestFitsBuffer | src/main.rs:188-199 | a well-formed request is understood iff it fits the 4096-byte buffer, and is rejected otherwise |
| EndToEnd.MalformedKeys | src/handlers.rs:57-252 | a lookup whose key is not a string with its only NUL at the end, or not 4 or 16 bytes of address, or that does not fit the buffer, gets no reply |
| EndToEnd.NotUtf8 | src/handlers.rs:64-252 | a name that is not UTF-8 gets no reply |
| EndToEnd.EmptyReplies | src/handlers.rs:51-287 | ignored types, and the types that are never looked up, get the empty reply whatever the key |
| EndToEnd.WhenWorkersPanic | src/main.rs:186-205 | a connection makes its worker panic exactly when parsing its first bytes does |
| EndToEnd.UserByName | src/handlers.rs:64-69 | the client reads back exactly the user the lookup found, or that there is none; no reply iff the lookup fails or the user cannot be sent |
| EndToEnd.UserByUid | src/handlers.rs:57-63 | the same by uid; no reply when the key is no number |
| EndToEnd.GroupByName | src/handlers.rs:77-82 | the client reads back exactly the group the lookup found, or that there is none; no reply iff the lookup fails or the group cannot be sent |
| EndToEnd.GroupByGid | src/handlers.rs:70-76 | the same by gid; no reply when the key is no number |
| EndToEnd.GroupListOf | src/handlers.rs:83-131 | the client reads back what getgrouplist finds with the user's own gid, none for a missing user or a failing call; no reply iff the user lookup fails or the list cannot be sent |
| EndToEnd.AddressInfo | src/handlers.rs:145-186 | the client reads back the addresses of the entries that are not errors, one to one and in order, with the first one's canonical name or else the requested one, iff no length was cut off; no reply iff there are addresses and the name has a NUL; the not-found reply when the lookup fails |
| EndToEnd.HostentSerializes | src/ffi.rs:136-195 | what mirrors a usable C hostent always serializes, and the C fields for family and width go out unchanged |
| EndToEnd.HostByAddr | src/handlers.rs:190-232 | for any resolver, allocator and memory: from the first reply that is not 34, or that had 10000000 bytes, the client reads back the host that mirrors the C hostent iff no length was cut off, exactly the error code when there is no host, and gets nothing when the hostent is unusable or memory runs out |
| EndToEnd.HostByName | src/handlers.rs:234-266 | the same by name, in either family, from the first reply that is not 34 |

## Left out

- The condvar wait loop, the join loop and the accept and receive loops are steps of a transition system on values, so that interleavings can be stated; the loops' imperative form is kept only for spawning and for the mutex contents.
- WorkGroupShutdown.ShutdownTerminates: what happens between `read` and `write_all` in `handle_stream` is one step that is always possible; a name service call that never returns is not modelled.
- A panic of the acceptor thread, and a failing `thread::spawn`: the source has no panic of its own on the acceptor's path.
- Time: a send may time out at any moment; handoff durations are not modelled.
- Sockets, permissions, systemd notification, logging and `disable_internal_nscd`: input and output only.
- Whether `stream.read`, `write_all` and `shutdown` fail: a failed read ends the exchange like an unusable request, and nothing after the reply depends on the others. One read is taken to deliver all the client sent, up to the buffer size.
- The name service calls, `getaddrinfo`, `getgrouplist`, `atoi` and UTF-8 validation: arbitrary functions in `Backend`.
- Rust's parser of unsigned integers is a function parameter of the configuration lemmas; the panic of `env::vars` on names or values that are not Unicode is not modelled.
- The upper-casing of database names: the table holds the upper-case names.
- HostReply.SerializeHostent: the family counters are unbounded where the source's are i32, so 2^31 or more addresses of one family, for which a build with overflow checks panics, are not modelled faithfully.
- EndToEnd.HostByAddr: inherits the limitation of HostReply.SerializeHostent.
- EndToEnd.HostByName: inherits the limitation of HostReply.SerializeHostent.
- Allocations other than the resolver's buffer are taken to succeed.
- Big-endian machines, and padding or alignment of the headers.
- The `Debug` output of the request type set, benchmarks, the C plug-in and packaging.
