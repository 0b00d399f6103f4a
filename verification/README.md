# Mir client and support code: a verified model

A Dafny 4.11 model of the stateful core of the Mir client library and of the
support code it is built and tested with, and proofs of what that code keeps over
every run. `dafny verify dfyconfig.toml` checks the whole project.

| file | what it models |
|---|---|
| `BufferCache.dfy` | the client's buffer cache: a map of ageing buffers, swept and aged by every deposit |
| `RpcChannel.dfy` | call numbering, pending calls and replies, under every interleaving of threads |
| `WireFraming.dfy` | the length-prefixed byte stream with its file descriptor groups |
| `WaitHandle.dfy` | the two-counter wait handle and the surface's configure requests on it |
| `SurfaceSync.dfy` | the synchronous surface calls, composed from cache and wait handles |
| `StrongPointer.dfy` | `sp<T>` over `LightRefBase`: counts and cascading deletion on any object graph |
| `Expectations.dfy` | Google Mock's prerequisite graph: retire, check, search, sequences, calls |
| `ExpectationRuns.dfy` | what runs of expectations mean, from the clauses and the calls taken alone |
| `HookChain.dfy` | Cucumber's around-step hooks over one shared iterator |
| `TypeMoves.dfy` | element-by-element moves between overlapping ranges of objects |
| `KeyedVector.dfy` | the sorted-vector map |
| `FramebufferRing.dfy` | the framebuffer window's ring of buffers |
| `ArgvFilter.dfy` | Google Mock's in-place filtering of `argv` |

How the pieces are stated:

- Code that updates objects is a class whose methods are tied to a function on
  values; the promises over whole runs are lemmas about that function.
- Protocols are state machines: a run is any sequence of steps, and a step that is
  not possible in a state changes nothing, so every interleaving is a run.
- Input from outside is a parameter: whether the buffer factory or an allocation
  succeeds, what a server replies, whether a compare-exchange fails spuriously, how
  often a hook runs its step, how a body announces its descriptors.

Where the code is not what its comments say:

- The depository's header promises that after a deposit the current buffer is made
  from the package just deposited. On a cache hit the package is ignored.
  `HitKeepsOldPackage` is the example; `CurrentBufferOrigin` says which package it
  is, and that it is the new one exactly when the id is outside the window.
- A one-buffer depository keeps a window of two deposits, and zero or a negative
  number wraps to a huge one (`WindowOfMaxBuffers`).
- Google Mock's order between the expectations of one sequence rests on a call
  retiring what comes before. An excessive call does not retire anything, so an
  expectation that allows no calls lets earlier ones be called after it
  (`ForbiddenCallBreaksOrder`). `OrderExactly` gives the exact condition, call by
  call: a call can never be overtaken, however the run goes on, if and only if its
  expectation allows calls at all or nothing active comes before it.
  `SequenceOrder` therefore holds in every run for each member that allows calls,
  whatever happens to other expectations.
- Assigning to an `sp` that lies inside an object which the assignment itself
  deletes stores into freed memory. `Assign` says exactly when that happens, and
  `UnsafeAssignmentReachable` is a run of five operations that gets there.
- A reply that no call is waiting for is logged, but the descriptors behind it are
  not read. `AlignedExactly` says that the reader keeps its place in the stream if
  and only if every reply answers a pending call or carries no descriptors;
  `HonestStream` shows that a server which answers each call once never breaks that.
- The framebuffer window never looks at which buffer comes back. With the two
  buffers it allocates nothing can go wrong; from three on the order matters
  (`OrderMattersFromThree`).

## Model

| member | source | states |
|---|---|---|
| `BufferCache.CacheIsWindow` | src/client/client_buffer_depository.cpp:37-72 | After any history of deposits, with factory failures, the cached ids are exactly those in the last `max_buffers` slots; each age is the distance to the latest earlier use, or 0; each buffer carries the package of the start of its chain; the current buffer is that of the last slot, if it is not empty. |
| `BufferCache.SweepIsWindow` | src/client/client_buffer_depository.cpp:39-52 | The age threshold evicts an idle id exactly when it falls out of the window. |
| `BufferCache.LatestIsLast` | src/client/client_buffer_depository.cpp:64-71 | The reference used for ages is the last slot in which the id left a current buffer, with none after it. |
| `BufferCache.WindowOfMaxBuffers` | src/client/client_buffer_depository.cpp:30-35 | The window is `max_buffers` for 2 or more, 2 for one, and wraps for zero or less. |
| `BufferCache.CacheSize` | src/client/client_buffer_depository.cpp:37-72 | The cache never holds more entries than the window has slots. |
| `BufferCache.Ages` | src/client/aging_buffer.cpp:33-42 | Idle buffers have an age from 1 to one less than the window, no age exceeds the window, and non-zero ages are pairwise distinct, after every history. |
| `BufferCache.FrameBoundary` | src/client/client_buffer_depository.cpp:54-62 | Each deposit obeys the frame-boundary rule of EGL_EXT_buffer_age for every surviving buffer, without wrap-around. |
| `BufferCache.CurrentBufferOrigin` | src/client/client_buffer_depository.cpp:64-77 | The factory is asked exactly when the id is outside the window; otherwise the current buffer is the one built at the start of the unbroken chain of deposits of that id. |
| `BufferCache.HitKeepsOldPackage` | src/client/client_buffer_depository.h:52-57 | A second deposit of an id still shows the first package, against the header's promise. |
| `BufferCache.AgingBuffer.IncrementAge` | src/client/aging_buffer.cpp:33-37 | A zero age stays zero, any other grows by one as a uint32. |
| `BufferCache.AgingBuffer.MarkAsSubmitted` | src/client/aging_buffer.cpp:39-42 | The age becomes 1. |
| `BufferCache.ClientBufferDepository.constructor` | src/client/client_buffer_depository.cpp:30-35 | The empty cache, with the converted age limit. |
| `BufferCache.ClientBufferDepository.Sweep` | src/client/client_buffer_depository.cpp:39-52 | Erasing while iterating removes exactly the evicted entries and keeps the current iterator valid. |
| `BufferCache.ClientBufferDepository.AgeAll` | src/client/client_buffer_depository.cpp:54-57 | Every cached buffer is aged once. |
| `BufferCache.ClientBufferDepository.DepositPackage` | src/client/client_buffer_depository.cpp:37-72 | The object is in the state its whole history leads to; a cached id keeps its very object, only the deposited id can get a new one; it fails exactly when nothing landed. |
| `BufferCache.ClientBufferDepository.CurrentBuffer` | src/client/client_buffer_depository.cpp:74-77 | Returns the buffer built from the package at the start of the id's chain. |
| `RpcChannel.NextIdsAreUnique` | src/client/mir_basic_rpc_channel.cpp:101-106 | In every interleaving, with spurious failures, k finished `next_id` calls returned exactly 0 to k-1, each once, all of them 32-bit ints. |
| `RpcChannel.SaveIsFresh` | src/client/mir_basic_rpc_channel.cpp:36-46 | A number about to be saved was never saved, pending or completed before, so saving overwrites nothing. |
| `RpcChannel.CompletionsMatch` | src/client/mir_basic_rpc_channel.cpp:48-65 | Each call's completion runs at most once and only with a reply to the number it was sent under, with replies in any order. |
| `RpcChannel.EmptyMeansAllCompleted` | src/client/mir_basic_rpc_channel.cpp:67-71 | Pending is saved minus completed; the cache is empty exactly when all saved calls have completed. |
| `RpcChannel.UnknownReplyIsIgnored` | src/client/mir_basic_rpc_channel.cpp:52-56 | A reply is an orphan exactly when its number was never saved or has completed, and then changes nothing but the log. |
| `RpcChannel.HonestServerNeverOrphans` | src/client/mir_socket_rpc_channel.cpp:162-173 | Since details are saved before sending, a server that answers each sent call once never reaches the orphan branch. |
| `RpcChannel.RepliesInOrder` | src/client/mir_basic_rpc_channel.cpp:48-65 | In every run the completions were given replies the server sent, unaltered and in the order sent; each reply was run, logged as an orphan, or is still on the wire. |
| `RpcChannel.CompletionsAreReplies` | src/client/mir_basic_rpc_channel.cpp:58-63 | Every completion got, number and payload, the argument of an earlier reply. |
| `RpcChannel.ReceiveRuns` | src/client/mir_basic_rpc_channel.cpp:52-65 | Receiving runs the completion saved under the number, if it has not run yet, with the reply at the head of the wire, and otherwise only logs. |
| `RpcChannel.HonestRepliesAllRun` | src/client/mir_socket_rpc_channel.cpp:162-173 | With a server that answers each sent call once, the replies run followed by those on the wire are exactly the replies sent. |
| `RpcChannel.NoNumberIsLost` | src/client/mir_basic_rpc_channel.cpp:36-106 | In every run each number given out is held by the thread that got it, or has been sent; what was sent and has not completed is pending. |
| `RpcChannel.CallGetsItsAnswer` | src/client/mir_socket_rpc_channel.cpp:155-174 | From every reachable state an idle thread can issue a call; its answer runs its completion with the answer's payload and disturbs no other call. |
| `RpcChannel.RunInv` | src/client/mir_basic_rpc_channel.cpp:36-106 | The invariant of all threads, numbers, pending calls and completions holds in every reachable state. |
| `RpcChannel.PendingCallCache.SaveCompletionDetails` | src/client/mir_basic_rpc_channel.cpp:36-46 | The call is pending under its number. |
| `RpcChannel.PendingCallCache.CompleteResponse` | src/client/mir_basic_rpc_channel.cpp:48-65 | The named call completes with this very reply and leaves; an unknown number changes nothing. |
| `RpcChannel.PendingCallCache.Empty` | src/client/mir_basic_rpc_channel.cpp:67-71 | True exactly when no call is pending. |
| `WireFraming.SendMessage` | src/client/mir_socket_rpc_channel.cpp:176-187 | The send buffer holds the size, high byte first, and then the body. |
| `WireFraming.BodyRoundTrip` | src/client/mir_socket_rpc_channel.cpp:257-277 | A body is read back, with the stream aligned behind it, if and only if it is shorter than 65536 bytes. |
| `WireFraming.GroupOrder` | src/server/frontend/socket_session.cpp:31-57 | Descriptor groups go out in surface, buffer, platform order, empty ones left out, each with one '!' byte. |
| `WireFraming.FdsRoundTrip` | src/client/mir_socket_rpc_channel.cpp:67-153 | The descriptor groups come back, each in its own part, in surface, buffer, platform order. |
| `WireFraming.MessageRoundTrip` | src/client/mir_socket_rpc_channel.cpp:257-277 | One reply as the server sends it: a pending call gets exactly its body and descriptors, any other reply is an orphan, and the stream is aligned behind it if and only if the call was pending or no descriptors follow. |
| `WireFraming.StreamRoundTrip` | src/server/frontend/socket_session.cpp:31-57 | Any list of replies in turn, sent back to back, is read back exactly, orphans included; the reader ends aligned at the end of the stream and the answered calls are no longer pending. |
| `WireFraming.AlignedExactly` | src/client/mir_socket_rpc_channel.cpp:207-277 | Every read starts at the beginning of a reply if and only if each reply in the list answers a pending call or carries no descriptors. |
| `WireFraming.HonestStream` | src/client/mir_socket_rpc_channel.cpp:162-232 | In every interleaving with a server that answers each sent call once, all replies on the wire are delivered with their descriptors and the reader ends aligned. |
| `WireFraming.ReadLoop` | src/client/mir_socket_rpc_channel.cpp:207-232 | The re-arming loop delivers exactly the replies of the stream, reads descriptors for pending calls only, and leaves the rest. |
| `WaitHandle.HandleSafe` | src/client/mir_wait_handle.cpp:34-58 | With any threads and any interleaving, no waiter sleeps un-notified while its condition holds, and returns never exceed results. |
| `WaitHandle.NotifiedByResults` | src/client/mir_wait_handle.cpp:41-58 | A sleeping waiter is notified exactly when a result has come after its last test of the condition. |
| `WaitHandle.InFlight` | src/client/mir_surface.cpp:232-268 | Across all waits and resets, expecting minus received is the number of configure requests without a matching reply; the cached type is that of the last accepted reply. |
| `WaitHandle.ReplyIsTaken` | src/client/mir_surface.cpp:247-268 | A reply counts exactly if it names this surface and carries the type attribute, and then its value is cached; a reply for another surface or without attribute changes neither counters nor cache. |
| `WaitHandle.ConfigureWait` | src/client/mir_wait_handle.cpp:49-58 | A configure wait returns at a step if and only if a waiter tests there, every request has its matching reply, and at least one request was made since the last return. |
| `WaitHandle.MirWaitHandle.ExpectResult` | src/client/mir_wait_handle.cpp:34-39 | One more result is expected: the very counters of the state machine's step. |
| `WaitHandle.MirWaitHandle.ResultReceived` | src/client/mir_wait_handle.cpp:41-47 | One more result is received: the very counters of the state machine's step. |
| `WaitHandle.MirWaitHandle.TryWait` | src/client/mir_wait_handle.cpp:49-58 | One pass of the wait loop resets and returns exactly when the condition is met, as the state machine's test does. |
| `SurfaceSync.SyncSeesItsReply` | src/client/mir_client_library.cpp:221-232 | When the k-th `next_buffer_sync` has returned, in every interleaving, the depository has been given exactly the first k+1 buffer replies in order and no wait handle holds a stale result. |
| `SurfaceSync.SyncDrawsToItsBuffer` | src/client/mir_surface.cpp:111-178 | The buffer then drawn to is the one the last reply named, with the age that counts the replies since its previous use, unless it could not be made. |
| `SurfaceSync.RunOk` | src/client/mir_surface.cpp:111-178 | At most one request is open, and the depository holds exactly the replies whose callback has deposited, in every reachable state. |
| `SurfaceSync.HandledWaitReturns` | src/client/mir_wait_handle.cpp:49-58 | In every reachable state a wait whose reply has been handled returns. |
| `SurfaceSync.UnhandledWaitBlocks` | src/client/mir_wait_handle.cpp:49-58 | And one whose reply has not been handled does not. |
| `SurfaceSync.AlwaysGetsReady` | src/client/mir_client_library.cpp:221-232 | From every reachable state, request, answer, deposit and signal lead back to the application, with one more `next_buffer_sync` returned. |
| `StrongPointer.CountIsSlots` | 3rd_party/android-deps/utils/RefBase.h:170-177 | Between operations every count is the number of slots that point at the object, and is zero exactly for objects never yet pointed at. |
| `StrongPointer.RunStable` | 3rd_party/android-deps/utils/RefBase.h:169-177 | After any run of allocations, constructions, copies, assignments, clears and destructions, as long as each is legal and safe, the whole invariant holds. |
| `StrongPointer.RunCounts` | 3rd_party/android-deps/utils/RefBase.h:170-177 | In every such run each count is the number of slots pointing at the object, zero exactly before its first reference, and no slot dangles. |
| `StrongPointer.RunConserves` | 3rd_party/android-deps/utils/RefBase.h:173-177 | In every such run the objects alive and the objects freed are disjoint and together exactly those allocated; nothing freed comes back. |
| `StrongPointer.CopyDoes` | 3rd_party/android-deps/utils/StrongPointer.h:128-132 | In every run a copy is possible exactly for a new slot and an existing source; the new slot then points where the source does, that object's count grows by one, and no other slot, count or object changes. |
| `StrongPointer.ConstructDoes` | 3rd_party/android-deps/utils/StrongPointer.h:121-127 | The same for construction from a raw pointer to an object that exists. |
| `StrongPointer.AssignDoes` | 3rd_party/android-deps/utils/StrongPointer.h:163-170 | In every run an assignment goes through exactly if the object holding the slot outlives it; the slot then points where told, every other slot not inside a freed object is unchanged, and the objects gone are those freed. |
| `StrongPointer.AssignFromDoes` | 3rd_party/android-deps/utils/StrongPointer.h:154-161 | The same for assignment from a slot, which gives what the source pointed at before. |
| `StrongPointer.ClearDoes` | 3rd_party/android-deps/utils/StrongPointer.h:198-205 | The same for clearing, which leaves null. |
| `StrongPointer.DestroyDoes` | 3rd_party/android-deps/utils/StrongPointer.h:148-152 | A slot outside all objects can always be destroyed; it is gone, every other slot not inside a freed object is unchanged, and the objects gone are those freed. |
| `StrongPointer.AllocateDoes` | 3rd_party/android-deps/utils/RefBase.h:169 | An allocation is possible exactly at a fresh address with fresh, distinct members; the object has count zero and null members and nothing else changes. |
| `StrongPointer.RefCounting.constructor` | 3rd_party/android-deps/utils/RefBase.h:169 | No objects, no slots, nothing held or freed: the start of every run. |
| `StrongPointer.PerformOne` | 3rd_party/android-deps/utils/StrongPointer.h:121-205 | Carrying out one operation with the counting code is safe exactly when the run theorem says so, and reaches exactly the state whose slots and counts `CopyDoes`, `AssignDoes` and the other lemmas of a step spell out. |
| `StrongPointer.Perform` | 3rd_party/android-deps/utils/StrongPointer.h:121-205 | Carrying out any run with the counting code reaches exactly the state of the run. |
| `StrongPointer.StableIsRebuilt` | 3rd_party/android-deps/utils/RefBase.h:170-177 | Between operations the counts and the references held are determined by the slots alone. |
| `StrongPointer.AssignedStable` | 3rd_party/android-deps/utils/StrongPointer.h:163-170 | The heap after a safe assignment satisfies the invariant and holds exactly the survivors. |
| `StrongPointer.DestroyedStable` | 3rd_party/android-deps/utils/StrongPointer.h:148-152 | The heap after a destruction satisfies the invariant and holds exactly the survivors. |
| `StrongPointer.OwnMemberIsUnsafe` | 3rd_party/android-deps/utils/StrongPointer.h:163-170 | An object that only its own member keeps alive never survives an assignment of something else to that member. |
| `StrongPointer.UnsafeAssignmentReachable` | 3rd_party/android-deps/utils/StrongPointer.h:198-205 | For any object and slots, a run of four safe operations after which clearing a member is legal and unsafe. |
| `StrongPointer.ClearedTooEarly` | 3rd_party/android-deps/utils/StrongPointer.h:198-205 | The counting code carries out that run and finds the store to be unsafe. |
| `StrongPointer.RefCounting.Assign` | 3rd_party/android-deps/utils/StrongPointer.h:163-170 | Assignment is safe exactly when the object holding the slot outlives it; then exactly the survivors are left, each other object is freed once, only this slot has changed, and the whole heap is the one determined by that. |
| `StrongPointer.RefCounting.AssignFrom` | 3rd_party/android-deps/utils/StrongPointer.h:154-161 | The same for copy assignment, also when the source lies inside an object being released; self-assignment is always safe and changes nothing. |
| `StrongPointer.RefCounting.Clear` | 3rd_party/android-deps/utils/StrongPointer.h:198-205 | Clearing gives the reference back and stores null under the same condition, with the same whole new heap. |
| `StrongPointer.RefCounting.Construct` | 3rd_party/android-deps/utils/StrongPointer.h:121-133 | A new slot outside all objects points where it is told; one count grows by one, and no other slot, count or object changes. |
| `StrongPointer.RefCounting.Destroy` | 3rd_party/android-deps/utils/StrongPointer.h:148-152 | Destroying a slot leaves exactly the survivors and their slots, all others freed once; the whole new heap. |
| `StrongPointer.RefCounting.Allocate` | 3rd_party/android-deps/utils/RefBase.h:169 | A new object starts with count zero and null members, and nothing else changes. |
| `StrongPointer.RefCounting.DecStrong` | 3rd_party/android-deps/utils/RefBase.h:173-177 | The cascade terminates, keeps every count right, frees each object once, and leaves every self-supporting set of objects untouched. |
| `StrongPointer.RefCounting.Delete` | 3rd_party/android-deps/utils/RefBase.h:173-177 | Deletion releases all members of the object and then frees its own memory; every count stays right and every self-supporting set of objects is untouched. |
| `StrongPointer.RefCounting.DestroySlot` | 3rd_party/android-deps/utils/StrongPointer.h:148-152 | A member's reference is given back once; giving it back twice is recorded as a fault. |
| `StrongPointer.AliveAreSurvivors` | 3rd_party/android-deps/utils/RefBase.h:173-177 | What a finished cascade leaves is the largest set of objects that keep each other or are kept from outside. |
| `StrongPointer.SelfExchange` | 3rd_party/android-deps/utils/StrongPointer.h:154-161 | Incrementing before decrementing makes self-assignment delete nothing. |
| `StrongPointer.ReachableSurvives` | 3rd_party/android-deps/utils/StrongPointer.h:154-170 | Whatever is reachable from outside without passing through the slot survives an assignment to it. |
| `Expectations.AllSatisfiedMeansEvery` | 3rd_party/gmock-1.6.0/src/gmock-spec-builders.cc:115-124 | The recursive check is true exactly when every transitive prerequisite is satisfied. |
| `Expectations.FindUnsatisfiedPrerequisites` | 3rd_party/gmock-1.6.0/src/gmock-spec-builders.cc:128-146 | The pruned search adds only unsatisfied prerequisites reached through satisfied ones, and all of them wherever calls came in turn, which `SearchAgreesWithCheck` shows of every reachable state. |
| `Expectations.MissingIsUnsatisfied` | 3rd_party/gmock-1.6.0/src/gmock-spec-builders.cc:128-146 | Everything the search adds is an unsatisfied transitive prerequisite. |
| `Expectations.NothingMissing` | 3rd_party/gmock-1.6.0/src/gmock-spec-builders.cc:115-146 | The search has something to add exactly when the recursive check fails. |
| `Expectations.SearchAgreesWithCheck` | 3rd_party/gmock-1.6.0/src/gmock-spec-builders.cc:133-138 | In every state of every run, excessive and forbidden calls included, calls came in turn, so pruning is sound: there is something for the search to add exactly when the check fails. |
| `Expectations.AlreadyRetired` | 3rd_party/gmock-1.6.0/src/gmock-spec-builders.cc:96-100 | Retiring the prerequisites of a retired expectation changes nothing: the early return is sound. |
| `Expectations.MockRegistry.RetireAllPreRequisites` | 3rd_party/gmock-1.6.0/src/gmock-spec-builders.cc:95-110 | Retires all transitive prerequisites and nothing else, on every acyclic graph. |
| `Expectations.MockRegistry.TakeCall` | 3rd_party/gmock-1.6.0/include/gmock/gmock-spec-builders.h:1174-1202 | A call is taken exactly when the expectation is not retired and every transitive prerequisite has at least its least and at most its most number of calls; its whole effect on all expectations. |
| `Expectations.MockRegistry.AddToSequence` | 3rd_party/gmock-1.6.0/src/gmock-spec-builders.cc:782-790 | Adding to a sequence makes its last expectation a prerequisite and keeps the graph acyclic. |
| `Expectations.AfterCallKeeps` | 3rd_party/gmock-1.6.0/include/gmock/gmock-spec-builders.h:1174-1202 | Every call keeps "retired implies all prerequisites retired" and touches only the expectation and what comes before it; it retires itself exactly when this call saturates it and it asked for that. |
| `Expectations.CallInOrder` | 3rd_party/gmock-1.6.0/include/gmock/gmock-spec-builders.h:1080-1089 | Any call that is taken, excessive ones too, keeps the order: nothing before an expectation that allows calls is called after it. |
| `Expectations.RunGood` | 3rd_party/gmock-1.6.0/src/gmock-spec-builders.cc:95-124 | In every run, whatever calls it takes, everything before a called expectation that allows calls is retired and satisfied, and no later call goes there. |
| `Expectations.SequenceOrder` | 3rd_party/gmock-1.6.0/src/gmock-spec-builders.cc:782-790 | In every run the calls to a sequence come in the order of its members; a member can be overtaken only if it allows no calls. |
| `Expectations.PassedStaySatisfied` | 3rd_party/gmock-1.6.0/src/gmock-spec-builders.cc:782-790 | In every run, the members of a sequence before a called one that allows calls are retired and satisfied. |
| `Expectations.OrderExactly` | 3rd_party/gmock-1.6.0/include/gmock/gmock-spec-builders.h:1179-1193 | For a call taken in any run: no continuation of the run calls anything before it, if and only if its expectation allows calls or everything before it was retired already. |
| `Expectations.ForbiddenCallBreaksOrder` | 3rd_party/gmock-1.6.0/include/gmock/gmock-spec-builders.h:1179-1190 | With an expectation that allows no calls the order is broken: a run in which a sequence's second member is called before its first. |
| `ExpectationRuns.CallsTaken` | 3rd_party/gmock-1.6.0/src/gmock-spec-builders.cc:115-124 | In every run the calls taken are exactly those of a reference that sees only the clauses and the earlier calls: a call is taken if and only if no regular call has passed its expectation, it has not retired on saturation, and everything before it has had neither too few nor too many calls. |
| `ExpectationRuns.HandlesExactly` | 3rd_party/gmock-1.6.0/src/gmock-cardinalities.cc:77-79 | The code's test, with its call counts and retired flags, is that test on clauses and calls. |
| `ExpectationRuns.EntriesByClauses` | 3rd_party/gmock-1.6.0/include/gmock/gmock-spec-builders.h:1174-1202 | In every run each expectation's bounds, prerequisites, number of calls and retirement are those its clause and the calls taken say. |
| `ExpectationRuns.MembersByClauses` | 3rd_party/gmock-1.6.0/src/gmock-spec-builders.cc:782-790 | In every run an expectation belongs to exactly the sequences its clause names, in the order of the clauses. |
| `ExpectationRuns.NewPrereqs` | 3rd_party/gmock-1.6.0/src/gmock-spec-builders.cc:782-790 | The prerequisites of a new expectation are its After set and, for each sequence it names, the latest earlier member. |
| `ExpectationRuns.GoneGrows` | 3rd_party/gmock-1.6.0/include/gmock/gmock-spec-builders.h:1192-1197 | One more call retires exactly what lies before its expectation, unless it is excessive, and the expectation itself if it asked for that and is now saturated. |
| `ExpectationRuns.OrderByClauses` | 3rd_party/gmock-1.6.0/src/gmock-spec-builders.cc:95-124 | In every run, once an expectation that allows calls has had one, nothing before it is called again and all of that has had its calls. |
| `Expectations.Bounds` | 3rd_party/gmock-1.6.0/src/gmock-cardinalities.cc:52-54 | The lower bound is the least natural number not below the one given, the upper bound the least not below either; valid bounds are left alone. |
| `HookChain.StepCallChain.Exec` | 3rd_party/cucumber-cpp/src/HookRegistrar.cpp:118-121 | Hooks are entered once each in list order and nest properly; the step runs 1 plus the sum of (times - 1) over entered hooks whose tags match, and not at all if some hook was never entered; the last run's result is returned. |
| `HookChain.StepCallChain.ExecNext` | 3rd_party/cucumber-cpp/src/HookRegistrar.cpp:123-131 | One call of the re-entrant chain serves one outstanding call. |
| `HookChain.StepCallChain.InvokeHook` | 3rd_party/cucumber-cpp/src/HookRegistrar.cpp:27-34 | A hook whose tags match calls its step any number of times, a skipped one exactly once; it wraps exactly the hooks its calls reach. |
| `HookChain.StepCallChain.ExecStep` | 3rd_party/cucumber-cpp/src/HookRegistrar.cpp:133-137 | The step runs, and its result is kept, only if there is a step. |
| `HookChain.StepRunsByTimes` | 3rd_party/cucumber-cpp/src/HookRegistrar.cpp:123-144 | By tags and times alone: how often the step runs, that the chain ends at the first hook where all calls are used up, and that then the step does not run. |
| `HookChain.EndsWhenUsedUp` | 3rd_party/cucumber-cpp/src/HookRegistrar.cpp:123-144 | The same from any hook on and for any number of outstanding calls. |
| `HookChain.OnceEach` | 3rd_party/cucumber-cpp/src/HookRegistrar.cpp:123-144 | Hooks that are skipped or run their step once are all entered, and the step runs exactly once. |
| `HookChain.SkippedIsTransparent` | 3rd_party/cucumber-cpp/src/HookRegistrar.cpp:32-34 | Putting in a hook that is skipped, anywhere, changes neither how often the step runs nor its result. |
| `HookChain.Batches` | 3rd_party/cucumber-cpp/src/HookRegistrar.cpp:123-144 | Calls of the shared chain can be served one batch after the other with the same outcome. |
| `TypeMoves.ForwardMoves` | 3rd_party/android-deps/utils/TypeHelpers.h:183-195 | Moving up, with any overlap, leaves the destination equal to the old source and never touches a dead cell or constructs over a live one. |
| `TypeMoves.BackwardMoves` | 3rd_party/android-deps/utils/TypeHelpers.h:206-216 | The same for moving down. |
| `TypeMoves.DirectionMatters` | 3rd_party/android-deps/utils/TypeHelpers.h:176-218 | For objects with real copy and destructor each loop is defined exactly on its own side, or when the ranges are apart. |
| `TypeMoves.ExactlyTargetLive` | 3rd_party/android-deps/utils/TypeHelpers.h:176-218 | After either loop, where it is defined for objects with real copy and destructor, exactly the destination's cells are live among source and destination. |
| `TypeMoves.ValuesArrive` | 3rd_party/android-deps/utils/TypeHelpers.h:176-218 | For any type, a loop on its own side leaves in each destination cell what its source cell held, and changes nothing outside the two ranges. |
| `TypeMoves.MoveForwardType` | 3rd_party/android-deps/utils/TypeHelpers.h:176-197 | The in-place loop, or memmove, computes that move; elements are copied one by one exactly for the types that are not relocated by memmove. |
| `TypeMoves.MoveBackwardType` | 3rd_party/android-deps/utils/TypeHelpers.h:199-218 | The in-place loop, or memmove, computes that move; elements are copied one by one exactly for the types that are not relocated by memmove. |
| `KeyedVector.LowerBound` | 3rd_party/android-deps/std/SortedVector.h:88 | The first position whose key is not less. |
| `KeyedVector.InsertRefines` | 3rd_party/android-deps/std/SortedVector.h:116-123 | Inserting at the lower bound keeps keys strictly increasing and adds one binding. |
| `KeyedVector.ReplaceRefines` | 3rd_party/android-deps/std/SortedVector.h:116-123 | Overwriting a pair changes exactly its key's value. |
| `KeyedVector.EraseRefines` | 3rd_party/android-deps/std/SortedVector.h:145-147 | Erasing a range keeps keys strictly increasing and removes exactly the keys in it. |
| `KeyedVector.NotAtEnd` | 3rd_party/android-deps/std/SortedVector.h:133-142 | The lower bound can be dereferenced exactly when some stored key is not less than the argument. |
| `KeyedVector.RepresentsOne` | 3rd_party/android-deps/utils/KeyedVector.h:125-202 | A vector stands for only one map. |
| `KeyedVector.KeyedVector.IndexOfKey` | 3rd_party/android-deps/utils/KeyedVector.h:125-128 | Non-negative exactly for present keys, and then the key's position. |
| `KeyedVector.KeyedVector.ValueFor` | 3rd_party/android-deps/utils/KeyedVector.h:130-135 | The last value written under the key. |
| `KeyedVector.KeyedVector.Add` | 3rd_party/android-deps/utils/KeyedVector.h:159-162 | Binds the key, replacing an old binding, and returns its position. |
| `KeyedVector.KeyedVector.RemoveItem` | 3rd_party/android-deps/utils/KeyedVector.h:180-183 | Removes the key's binding and returns where it was, or reports that there is none. |
| `KeyedVector.KeyedVector.ReplaceValueFor` | 3rd_party/android-deps/utils/KeyedVector.h:164-169 | Removing and adding again rebinds the key. |
| `KeyedVector.KeyedVector.ReplaceValueAt` | 3rd_party/android-deps/utils/KeyedVector.h:171-178 | Rebinds the key at a position, or changes nothing. |
| `KeyedVector.KeyedVector.RemoveItemsAt` | 3rd_party/android-deps/std/SortedVector.h:145-147 | Removes the bindings of a range; the out-of-range report, and exactly when the size_t sum hides it. |
| `KeyedVector.DefaultValueFor` | 3rd_party/android-deps/utils/KeyedVector.h:198-202 | The bound value, or the default for an absent key. |
| `FramebufferRing.CountsHold` | 3rd_party/android-fbtype/FramebufferNativeWindow.cpp:214-273 | For any buffer count, run and order of return, free plus outstanding is n, at most n-1 are out, and the head is (n-1 + dequeues) mod n. |
| `FramebufferRing.InOrderIsSafe` | 3rd_party/android-fbtype/FramebufferNativeWindow.cpp:214-273 | When buffers come back in order no buffer is handed out twice and the one on screen is never handed out. |
| `FramebufferRing.OrderMattersFromThree` | 3rd_party/android-fbtype/FramebufferNativeWindow.cpp:100-125 | That holds for every order of return if and only if there are at most two buffers. |
| `FramebufferRing.FramebufferNativeWindow.constructor` | 3rd_party/android-fbtype/FramebufferNativeWindow.cpp:100-125 | Counters match the buffers that could be allocated, at most two. |
| `FramebufferRing.FramebufferNativeWindow.DequeueBuffer` | 3rd_party/android-fbtype/FramebufferNativeWindow.cpp:214-238 | Blocks below two free buffers; otherwise hands out the next buffer of the ring, which is neither out nor on screen if buffers came back in order. |
| `FramebufferRing.FramebufferNativeWindow.QueueBuffer` | 3rd_party/android-fbtype/FramebufferNativeWindow.cpp:252-273 | Posts the buffer given back and frees one, without looking at which it is. |
| `ArgvFilter.InitGoogleMock` | 3rd_party/gmock-1.6.0/src/gmock.cc:126-157 | The loop terminates; `argv[0]` stays, the unrecognised arguments follow in order, nulls follow up to the old end, nothing beyond changes; each flag has the value its last occurrence spells out. |
| `ArgvFilter.ShiftLeft` | 3rd_party/gmock-1.6.0/src/gmock.cc:145-147 | The rest of the array, trailing null included, moves one to the left. |
| `ArgvFilter.LastOccurrenceWins` | 3rd_party/gmock-1.6.0/src/gmock.cc:138-140 | Each flag ends with the value spelled out in the text of its last occurrence, independently of the other. |
| `ArgvFilter.CatchText` | 3rd_party/gmock-1.6.0/src/gmock.cc:91-102 | `--gmock_catch_leaked_mocks=v` clears the flag exactly when `v` starts with 0, f or F, and sets it otherwise. |
| `ArgvFilter.BareCatchText` | 3rd_party/gmock-1.6.0/src/gmock.cc:72-75 | The bare `--gmock_catch_leaked_mocks` sets it. |
| `ArgvFilter.VerboseText` | 3rd_party/gmock-1.6.0/src/gmock.cc:109-120 | `--gmock_verbose=v` stores `v`. |
| `ArgvFilter.FlagShapes` | 3rd_party/gmock-1.6.0/src/gmock.cc:58-84 | An argument is a flag, and is removed, exactly when it has one of these three shapes. |
| `ArgvFilter.FlagsAreDifferent` | 3rd_party/gmock-1.6.0/src/gmock.cc:58-84 | No argument is both flags. |
| `ArgvFilter.SecondPassIsIdle` | 3rd_party/gmock-1.6.0/src/gmock.cc:126-157 | What is left holds no flag; a second pass removes and sets nothing. |
| `ArgvFilter.Conserved` | 3rd_party/gmock-1.6.0/src/gmock.cc:141-150 | The remaining arguments and the recognised flags together are the original ones. |

## Left out

- Boost.Asio, sockets and libancillary: the connection is a byte sequence with a queue of descriptor groups, each received whole; read errors and a short receive are not modelled.
- Protobuf: bodies are byte sequences, replies are a number and a payload, and how a body announces descriptors is a parameter.
- Callbacks that throw, or that issue calls while the cache's mutex is held.
- Call numbers past the maximum of a 32-bit int, where the source's increment is undefined: the model's counter stops there.
- StrongPointer: counts are unbounded, operations do not run concurrently, and addresses are not reused; `RefBase`, `wp` and `force_set` are not part of this model.
- StrongPointer.RefCounting.Assign: says nothing about the heap after an unsafe assignment, where the source writes to freed memory.
- Expectations: argument matchers, actions and `VerifyAndClear`; expectations are added to sequences while they are being created.
- Expectations.SequenceOrder: says nothing of a member that allows no calls; `OrderExactly` shows that such a member can be overtaken unless all before it is retired.
- WaitHandle: the counters are unbounded; a matching configure reply for an attribute other than the type, which fails the source's assertion, does not occur.
- WireFraming.MessageRoundTrip: covers replies whose body announces the descriptors that follow; what a reader out of step makes of the bytes it then reads is not stated.
- FramebufferRing: the condition variable's notifications, fences and the framebuffer device.
- InitGoogleTest, which `InitGoogleMock` calls first: the arguments are those it leaves.
- HookChain: the tag expression itself; before, after and after-step hooks, which are plain loops.
- TypeHelpers' construct, destroy, copy and splat loops, hash codes: easy members.
- Surface parameters, CPU regions, pixel formats, package arrays: easy members.
- GL and EGL code, display and server set-up, input stack, Android HAL headers: not part of this model.
