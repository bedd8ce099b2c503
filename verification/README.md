# Verified model of riff and its messaging core

riff instruments a parallel application: worker threads count and time their tasks, a
support thread collects samples from them on request, and a monitor process asks for the
samples over a nanomsg channel. The repository carries nanomsg with it. This project models
the parts of both that are hard to get right, and proves what they keep and what they
promise, over all inputs, all runs and all interleavings.

| files | what they model |
|---|---|
| `Bytes`, `Wire`, `Wrappers` | machine words and their big-endian form, and a value that may be missing |
| `Trie`, `TrieNodes`, `TrieCounts`, `TrieSubscribe`, `TrieUnsubscribe`, `TrieMatch`, `TrieRuns`, `TrieSize` | the subscription trie as a value: what every operation does to the number of subscriptions of every string, against a plain multiset, and to the number of nodes |
| `TrieMemory`, `TrieHeap` | the same trie in an explicit memory of cells and pointers, edited in place; each operation is proved equal to the value-level one, without leaks and without touching foreign cells |
| `Timer`, `Req`, `ReqRuns`, `ReqMoves`, `ReqSocket` | the request socket composed with its asynchronous timer, the worker queue and the load balancer: transition functions, invariants, whole runs, and the objects updated in place |
| `Routing`, `RoutingSockets` | the backtrace stack: a request through any chain of hops and its reply back |
| `Chunk`, `ChunkRef` | message memory byte by byte, and the two forms of a reference to it |
| `List`, `Dist` | the intrusive list, and the distributor that edits it while it walks it |
| `Priolist`, `Priorities`, `PriorityList` | the prioritised round robin: order of turns, fairness over runs, and the object |
| `Hash`, `HashTable` | the growing hash table against a finite map |
| `Sampling`, `Timing`, `Application` | adaptive sampling on one thread, and the objects with the loops over all threads |
| `Handshake`, `Consolidation` | the flag handshake between workers and support thread, every shared access a step of its own |
| `ExecutionTime` | the reported execution time against the documented one, over all threads and interleavings |
| `Load` | the load in an answer, over all interleavings |
| `Monitoring`, `Rounds` | the message protocol between application and monitor over FIFO channels, and how the steps of the threads map to it |

Three conventions hold throughout. What the source does by changing a structure step by step
is a class whose methods carry loops and assignments, and is proved against a function on
values; the properties are lemmas about that function. What is concurrent is a state machine
over atomic steps, and the properties hold in every reachable state. Where the code does not
do what it promises, the model keeps the code, a lemma shows an input for which it fails, and
an if-and-only-if says for which inputs it does not.

## What the code does not keep

* A trie node rebuilt in the other layout loses its own subscriptions
  (`TrieSubscribe.SubscribeExact`, `TrieUnsubscribe.UnsubscribeExact`).
* Withdrawing a string that is not subscribed can remove another string, dereference null or
  corrupt a child count (`TrieUnsubscribe.WrongHitTakes`, `TrieUnsubscribe.HoleHitBreaks`). The
  header says that 1 is returned if the string was actually removed; the code also returns 1 for
  some strings that were never there (`TrieUnsubscribe.ReturnExact` says for which).
* Matching reads past the end of a message that ends at a node without subscriber
  (`TrieMatch.MatchExact`).
* A stray message replaces a reply that waits to be fetched (`ReqRuns.ReplyKeptExact`,
  `ReqRuns.FetchExact`).
* `terminate()` waits for an acknowledgement so that STOP is not lost, but may take the
  monitor's last request for it (`Monitoring.AckExact`), and may wait until the monitor asks
  once more (`Monitoring.JoinExact`, `Monitoring.JoinBlocks`).
* The execution time is documented as running from the first `begin()` to the last `end()`. It
  does if and only if every thread has begun and the last `end()` was timed
  (`ExecutionTime.IntervalExact`, `ExecutionTime.TimeExact`).
* `getSample()` waits for every thread to store a sample; one that has finished its work makes it
  wait until `terminate()` (`Monitoring.AnswerExact`, `Consolidation.RoundBlocked`). One that goes
  on working stores in time (`Sampling.StoresExact`).
* The load is documented as a percentage; extrapolated from timed tasks it can be above 100, by
  at most the threshold for inconsistent samples (`Sampling.ClosedMeans`, `Load.AnswerLoad`).
* With no thread at all the first request ends in a fatal error (`Consolidation.FailsExact`).

## Assumptions

Each thread alternates `begin()` and `end()` with weight 1, its clock is strictly increasing and
not zero, and the sampling length in ms and the threshold are not negative. Memory is sequentially
consistent, `terminate()` is called once, after the last `end()` and after a `begin()`. Channels are
FIFO. The transport answers a message by keeping or releasing the pipe, which is a parameter. Memory
allocation succeeds, except in `Chunk.Alloc`, where the overflow is modelled.

## Model

| member | source | states |
|---|---|---|
| `Trie.IndexOf` | src/external/nanomsg/src/protocols/pubsub/trie.c:185-191 | where a sparse node keeps the child for a byte: the position of the byte, the number of keys if and only if the byte is absent |
| `TrieNodes.AddChildFinds` | src/external/nanomsg/src/protocols/pubsub/trie.c:302-400 | after making room for a child, in every layout and through every widening, each byte leads where it led before and the new byte to the new child |
| `TrieNodes.AddChildShape` | src/external/nanomsg/src/protocols/pubsub/trie.c:302-400 | the new layout is in order: sparse keys distinct and at most 8, dense count exact and at least 9, both end slots occupied, and no child but the old ones and the new one |
| `TrieNodes.RemoveSparse` | src/external/nanomsg/src/protocols/pubsub/trie.c:519-554 | giving up a slot of a sparse node takes away that child only |
| `TrieNodes.RemoveDenseFits` | src/external/nanomsg/src/protocols/pubsub/trie.c:602-625 | a dense node with nine children that loses one has exactly eight left, so the assertion in the conversion to sparse holds |
| `TrieNodes.RemoveDense` | src/external/nanomsg/src/protocols/pubsub/trie.c:556-625 | giving up a slot of a dense node takes away that child only, whether the node shrinks at an end, stays as wide or turns sparse, and the layout stays in order |
| `TrieCounts.CountStep` | src/external/nanomsg/src/protocols/pubsub/trie.c:439-470 | what a string counts at a node is what the rest of it counts below: the meaning of a trie is a function from strings to numbers of subscriptions |
| `TrieCounts.CompactCount` | src/external/nanomsg/src/protocols/pubsub/trie.c:203-234 | merging a node with its only child changes the count of no string |
| `TrieSubscribe.SplitCount` | src/external/nanomsg/src/protocols/pubsub/trie.c:285-300 | splitting a node at any position of its prefix changes the count of no string |
| `TrieSubscribe.ChainCount` | src/external/nanomsg/src/protocols/pubsub/trie.c:402-436 | the chain of new nodes for the rest of a subscription stands for that string, once, and for nothing else |
| `TrieSubscribe.SubscribeCount` | src/external/nanomsg/src/protocols/pubsub/trie.c:236-437 | subscribing raises the count of the string by one, modulo the width of the counter; every other string keeps its count, except that the key of a node rebuilt as dense drops to 0 |
| `TrieSubscribe.SubscribeExact` | src/external/nanomsg/src/protocols/pubsub/trie.c:236-437 | a subscription disturbs no other string if and only if the walk does not leave a subscribed node that has eight children already and none for the next byte |
| `TrieSubscribe.LostKeySubscribed` | src/external/nanomsg/src/protocols/pubsub/trie.c:360-400 | the string that loses its count then is a subscribed proper prefix of the new one |
| `TrieSubscribe.SubscribeWellFormed` | src/external/nanomsg/src/protocols/pubsub/trie.c:236-437 | the trie keeps its shape if and only if the counter of a leaf does not wrap to 0 |
| `TrieUnsubscribe.UnsubscribeReports` | src/external/nanomsg/src/protocols/pubsub/trie.c:477-655 | unless the walk meets an empty slot or a node whose prefix it does not look at: it succeeds, keeps the shape, leaves an empty trie exactly when the last subscription goes, returns 1 when the count was 1 and 0 when it was more, and does nothing to the trie when the string is absent |
| `TrieUnsubscribe.UnsubscribeCount` | src/external/nanomsg/src/protocols/pubsub/trie.c:477-655 | one subscription to the string is gone if there was one, the key of a node rebuilt as sparse drops to 0, every other string keeps its count |
| `TrieUnsubscribe.SubscribedIsSafe` | src/external/nanomsg/src/protocols/pubsub/trie.c:488-517 | neither accident can happen to a string that is subscribed |
| `TrieUnsubscribe.UnsubscribeExact` | src/external/nanomsg/src/protocols/pubsub/trie.c:477-655 | an unsubscription, of a present or absent string, removes one subscription to it and nothing else if and only if it meets none of the three guarded cases |
| `TrieUnsubscribe.WrongHitTakes` | src/external/nanomsg/src/protocols/pubsub/trie.c:488-489 | when the data runs out above a subscribed node with a prefix, a different, longer string loses a subscription |
| `TrieUnsubscribe.HoleHitBreaks` | src/external/nanomsg/src/protocols/pubsub/trie.c:491-511 | when the walk goes into an empty slot, it dereferences null, or a failed assertion or a wrong child count is the result |
| `TrieUnsubscribe.UnsubscribeWellFormed` | src/external/nanomsg/src/protocols/pubsub/trie.c:477-655 | an unsubscription succeeds and keeps the shape if and only if the walk does not go into an empty slot; taking the wrong node for the subscription does not harm the shape |
| `TrieUnsubscribe.UnsubscribeLostKeySubscribed` | src/external/nanomsg/src/protocols/pubsub/trie.c:602-625 | the string that loses its count in a conversion to sparse is a subscribed proper prefix |
| `TrieUnsubscribe.ReturnExact` | src/external/nanomsg/src/protocols/pubsub/trie.c:477-655 | for every string, 1 is returned exactly for the removal of its last subscription if and only if the walk does not go into an empty slot, does not end another string instead, and does not end below the root at a node that nobody subscribes to |
| `TrieUnsubscribe.WrongHitReports` | src/external/nanomsg/src/protocols/pubsub/trie.c:488-489 | when another node is taken for the subscription, 1 is returned if and only if that node had one subscription |
| `TrieSize.ChainSize` | src/external/nanomsg/src/protocols/pubsub/trie.c:402-436 | a new branch has as few nodes as the string allows |
| `TrieSize.CompactSize` | src/external/nanomsg/src/protocols/pubsub/trie.c:203-234 | a merge saves one node, and happens if and only if the node has no subscriber and an only child that can take its prefix |
| `TrieSize.WithdrawnSize` | src/external/nanomsg/src/protocols/pubsub/trie.c:236-655 | a subscription that is withdrawn at once leaves no more nodes behind than there were, unless a leaf counter wraps |
| `TrieMatch.MatchSound` | src/external/nanomsg/src/protocols/pubsub/trie.c:439-470 | a match is owed to a subscription within reach of the walk |
| `TrieMatch.MatchComplete` | src/external/nanomsg/src/protocols/pubsub/trie.c:439-470 | a subscription within reach is found |
| `TrieMatch.MatchRight` | src/external/nanomsg/src/protocols/pubsub/trie.c:439-470 | a match says that some prefix of the message is subscribed, and the other way round, unless the walk uses up the message at a node without subscriber, past none that has one |
| `TrieMatch.MatchExact` | src/external/nanomsg/src/protocols/pubsub/trie.c:439-470 | matching is right whatever follows the message in memory if and only if the walk does not use up the message at a node without subscriber, past none that has one |
| `TrieMatch.BareGoesOn` | src/external/nanomsg/src/protocols/pubsub/trie.c:456-468 | below a node without subscriber there is always one, so that bytes behind the message can make it match |
| `TrieRuns.ShapeExact` | src/external/nanomsg/src/protocols/pubsub/trie.c:236-655 | one operation keeps the shape if and only if neither a leaf counter wraps to 0 nor the walk goes into an empty slot |
| `TrieRuns.Run` | src/external/nanomsg/src/protocols/pubsub/trie.c:236-655 | the shape survives every run in which no operation breaks it, whatever becomes of the counts |
| `TrieRuns.RunAgrees` | src/external/nanomsg/src/protocols/pubsub/trie.c:236-655 | in every run without lossy conversions the trie agrees with a plain multiset of strings, string by string |
| `TrieRuns.RunMatches` | src/external/nanomsg/src/protocols/pubsub/trie.c:439-470 | and matching is then a linear scan of the multiset |
| `TrieRuns.UndoneExactly` | src/external/nanomsg/src/protocols/pubsub/trie.c:236-655 | a subscription and its withdrawal cancel out for every string |
| `TrieRuns.SubscribeLossExample` | src/external/nanomsg/src/protocols/pubsub/trie.c:360-400 | nine subscriptions to the empty trie, after which a tenth wipes out the count of another string |
| `TrieRuns.UnsubscribeLossExample` | src/external/nanomsg/src/protocols/pubsub/trie.c:602-625 | a run from the empty trie after which an unsubscription wipes out the count of another string |
| `TrieRuns.HoleHitExample` | src/external/nanomsg/src/protocols/pubsub/trie.c:488-493 | withdrawing a string from the empty trie dereferences the null root |
| `TrieRuns.WrongHitExample` | src/external/nanomsg/src/protocols/pubsub/trie.c:488-489 | with "ABC" subscribed, withdrawing the empty string removes "ABC" |
| `TrieRuns.BareMatchExample` | src/external/nanomsg/src/protocols/pubsub/trie.c:456-468 | two subscriptions after which a message matches because of the byte behind it |
| `TrieMemory.Frame` | src/external/nanomsg/src/protocols/pubsub/trie.c:236-655 | what a tree in memory looks like depends on its own cells only |
| `TrieMemory.GraftStored` | src/external/nanomsg/src/protocols/pubsub/trie.c:255-437 | storing a new pointer in the slot a walk has arrived at puts the new subtree into the tree, and changes nothing else |
| `TrieHeap.TrieHeap.CheckPrefix` | src/external/nanomsg/src/protocols/pubsub/trie.c:156-170 | the loop finds the length of the common prefix |
| `TrieHeap.TrieHeap.NextSlot` | src/external/nanomsg/src/protocols/pubsub/trie.c:179-201 | the slot for a byte in either layout, or none |
| `TrieHeap.TrieHeap.Compact` | src/external/nanomsg/src/protocols/pubsub/trie.c:203-234 | the merge in memory: the child takes the joined prefix, the parent is freed, no other cell changes |
| `TrieHeap.TrieHeap.SplitNode` | src/external/nanomsg/src/protocols/pubsub/trie.c:285-300 | the split in memory, with the new parent and the shortened child, is the split of the tree |
| `TrieHeap.TrieHeap.MakeRoom` | src/external/nanomsg/src/protocols/pubsub/trie.c:302-400 | the three ways of making room, with cells that may move, do what adding a child does to the tree |
| `TrieHeap.TrieHeap.AppendStep` | src/external/nanomsg/src/protocols/pubsub/trie.c:402-428 | the loop that allocates the chain of new nodes, each stored in the slot of the one before |
| `TrieHeap.TrieHeap.Subscribe` | src/external/nanomsg/src/protocols/pubsub/trie.c:236-437 | the operation on memory, steps 1 to 5, through a pointer to the slot: it represents the new tree, leaves no cell behind, touches no foreign cell, and returns 1 if and only if the count has become 1 |
| `TrieHeap.TrieHeap.GiveUp` | src/external/nanomsg/src/protocols/pubsub/trie.c:519-625 | the loops that look for the next child, shrink or convert a node do what removing a child does; the assertion fails if and only if the conversion does not find eight children |
| `TrieHeap.TrieHeap.NodeUnsubscribe` | src/external/nanomsg/src/protocols/pubsub/trie.c:477-655 | the recursion on memory, through the pointer in the slot above, into empty slots too: it dereferences null or fails an assertion if and only if the value-level function says so, and otherwise does what that function says |
| `TrieHeap.TrieHeap.Unsubscribe` | src/external/nanomsg/src/protocols/pubsub/trie.c:472-475 | the operation on memory crashes exactly when the value-level function says so; otherwise it represents the new tree, frees what is given up and returns the code of that function |
| `TrieHeap.TrieHeap.Match` | src/external/nanomsg/src/protocols/pubsub/trie.c:439-470 | the loop over nodes and data gives the answer of the value-level walk |
| `Wire.GetlPutl` | src/external/nanomsg/src/utils/wire.c:43-57 | reading a word that has been written gives the word |
| `Wire.PutlGetl` | src/external/nanomsg/src/utils/wire.c:43-57 | writing a word that has been read gives the bytes |
| `Wire.PutlInjective` | src/external/nanomsg/src/utils/wire.c:51-57 | different words are written differently |
| `Timer.StepValid` | src/external/nanomsg/src/aio/timer.c:76-178 | every start, stop, worker task and timeout is handled: no assertion fails, the joint state of timer, worker queue and timeout set is kept |
| `Timer.StepStory` | src/external/nanomsg/src/aio/timer.c:90-113 | each step tells the owner what its state allows; when the stop is reported the handle is out of the set and nothing is queued |
| `Timer.RunStory` | src/external/nanomsg/src/aio/timer.c:76-178 | in every interleaving the owner is told: started, timeouts, one stop, exactly one report of it; no timeout between a stop and the next start |
| `ReqSocket.ResendTimer.Start` | src/external/nanomsg/src/aio/timer.c:76-83 | starting in place, with its assertions |
| `ReqSocket.ResendTimer.Stop` | src/external/nanomsg/src/aio/timer.c:85-113 | stopping in place |
| `ReqSocket.ResendTimer.Feed` | src/external/nanomsg/src/aio/fsm.c:80-87 | the state of the machine selects the handler |
| `ReqSocket.ResendTimer.RunTask` | src/external/nanomsg/src/aio/timer.c:115-160 | a worker task, in place |
| `ReqSocket.ResendTimer.Expire` | src/external/nanomsg/src/aio/timer.c:115-178 | a timeout that is due, in place |
| `Req.InitValid` | src/external/nanomsg/src/protocols/reqrep/req.c:80-103 | the initial state is in order |
| `Req.StepValid` | src/external/nanomsg/src/protocols/reqrep/req.c:344-636 | request machine, timer and load balancer stay in agreement in every external step: ACTIVE if and only if the timer runs and a pipe is recorded; TIMED_OUT, CANCELLING and STOPPING_TIMER if and only if a stop is in flight; no sendable pipe in DELAYED. No bad branch, no failed assertion; a message goes out exactly on entering ACTIVE |
| `Req.SubmitValid` | src/external/nanomsg/src/protocols/reqrep/req.c:231-254 | a new request, in any state, is recorded under the next identifier and sent or delayed |
| `Req.TaskValid` | src/external/nanomsg/src/protocols/reqrep/req.c:476-602 | a worker task moves the machine only where its stop was awaited and leaves the reply alone; where it leads is `ReqMoves.TaskMoves` |
| `Req.DueValid` | src/external/nanomsg/src/protocols/reqrep/req.c:456-465 | a timeout leads from ACTIVE to TIMED_OUT and does nothing elsewhere |
| `ReqRuns.RunRecorded` | src/external/nanomsg/src/protocols/reqrep/req.c:231-254 | in every run the recorded request is the last one submitted and what was sent was sent in the order of submission |
| `ReqRuns.RunSafe` | src/external/nanomsg/src/protocols/reqrep/req.c:344-659 | in every run from the start nothing asserts, and in ACTIVE the last message sent, over a pipe that still exists, is the last request submitted |
| `ReqRuns.ArriveExact` | src/external/nanomsg/src/protocols/reqrep/req.c:142-197 | everything the receive loop does: the machine leaves ACTIVE if and only if an answer to the current request is read before a runt; the reply field is overwritten whenever anything is read |
| `ReqRuns.ReplyKeptExact` | src/external/nanomsg/src/protocols/reqrep/req.c:142-197 | a good reply waiting to be fetched is spoilt by a step if and only if messages are read in the meantime of which none answers the request |
| `ReqRuns.FetchExact` | src/external/nanomsg/src/protocols/reqrep/req.c:256-278 | in every run what is fetched is the body of the first answer to the current request among the messages read last since the submission, or a terminated message if there is none |
| `ReqRuns.ReplyLostExample` | src/external/nanomsg/src/protocols/reqrep/req.c:153-165 | a run from the start in which the answer is ready to be fetched and a stray message of four zero bytes takes its place |
| `ReqRuns.AnswersExact` | src/external/nanomsg/src/protocols/reqrep/req.c:153-183 | exactly which messages pass for an answer to the current request: those whose header, or first four bytes, are the header the request was sent with |
| `ReqRuns.StaleExact` | src/external/nanomsg/src/protocols/reqrep/req.c:174-183 | a reply to an older request passes for one to the current if and only if a multiple of 2^31 requests lies between |
| `ReqRuns.NotStale` | src/external/nanomsg/src/protocols/reqrep/req.c:174-183 | hence never within 2^31 requests |
| `ReqMoves.SubmitMoves` | src/external/nanomsg/src/protocols/reqrep/req.c:231-254 | a submission in PASSIVE or DONE is sent over the pipe the balancer picks, or delayed if and only if there is none; in DELAYED it waits; otherwise the timer is stopped and nothing goes out yet |
| `ReqMoves.TaskMoves` | src/external/nanomsg/src/protocols/reqrep/req.c:476-602 | the worker task that ends a stop sends the request on record again from TIMED_OUT and CANCELLING, or delays it if and only if no pipe is ready, and leads to DONE after an answer; the task that starts the timer changes nothing else |
| `ReqMoves.DueMoves` | src/external/nanomsg/src/protocols/reqrep/req.c:456-465 | a timeout in ACTIVE stops the timer and keeps the request; anywhere else it changes nothing |
| `ReqMoves.WritableMoves` | src/external/nanomsg/src/protocols/reqrep/req.c:199-211 | a pipe that becomes writable in DELAYED gets the request; otherwise it is one more ready pipe |
| `ReqMoves.DetachMoves` | src/external/nanomsg/src/protocols/reqrep/req.c:650-659 | a pipe that goes stops the timer if and only if the request had been sent to it, and keeps the request |
| `ReqMoves.FetchMoves` | src/external/nanomsg/src/protocols/reqrep/req.c:256-278 | a fetch in DONE hands over the reply and empties the field; the two errors change nothing |
| `ReqMoves.EndsByFetch` | src/external/nanomsg/src/protocols/reqrep/req.c:344-636 | in every step: a request in progress ends by a fetch in DONE and in no other way, and begins by a submission only |
| `ReqMoves.RunOutstanding` | src/external/nanomsg/src/protocols/reqrep/req.c:231-278 | in every run a request is in progress if and only if a submission lies after the last fetch that delivered a reply |
| `ReqMoves.FetchCode` | src/external/nanomsg/src/protocols/reqrep/req.c:260-268 | in every run receiving fails with EFSM if and only if no submission lies after the last fetch that delivered, with EAGAIN if and only if one does and the reply is not ready, and delivers a message if and only if it is |
| `ReqMoves.Resends` | src/external/nanomsg/src/protocols/reqrep/req.c:476-536 | when the tasks queued for the timer have been run, a request that has timed out, or that waited for another one to be cancelled, has gone out again or waits for a pipe |
| `ReqMoves.SentElsewhere` | src/external/nanomsg/src/protocols/reqrep/req.c:650-659 | a request whose pipe has gone is the next to go out, unchanged, over another pipe if there is a ready one |
| `ReqSocket.ReqSocket.ActionSend` | src/external/nanomsg/src/protocols/reqrep/req.c:604-636 | sending the request, or delaying it, in place |
| `ReqSocket.ReqSocket.Handler` | src/external/nanomsg/src/protocols/reqrep/req.c:344-602 | the handler in place is the transition function, and its assertions hold; where each entry leads is proved in `ReqMoves` |
| `ReqSocket.ReqSocket.LeaveContext` | src/external/nanomsg/src/aio/ctx.c:51-75 | leaving the context processes queued events until there are none |
| `ReqSocket.ReqSocket.Csend` | src/external/nanomsg/src/protocols/reqrep/req.c:231-254 | a submission in place |
| `ReqSocket.ReqSocket.Crecv` | src/external/nanomsg/src/protocols/reqrep/req.c:256-278 | fetching the reply in place: the reply in DONE, after which the machine is in PASSIVE; EFSM if no request is in progress, EAGAIN if its reply is not ready, and then no field changes |
| `ReqSocket.ReqSocket.Receive` | src/external/nanomsg/src/protocols/reqrep/req.c:142-197 | the receive loop in place |
| `ReqSocket.ReqSocket.Writable` | src/external/nanomsg/src/protocols/reqrep/req.c:199-211 | a pipe becoming writable, in place |
| `ReqSocket.ReqSocket.Remove` | src/external/nanomsg/src/protocols/reqrep/req.c:650-659 | a pipe going away, in place: it is no longer ready, and a request that was sent to it is taken back; that it goes out again is `ReqMoves.SentElsewhere` |
| `ReqSocket.ReqSocket.WorkerRuns` | src/external/nanomsg/src/aio/worker_posix.inc:214-240 | the worker runs the next task of the timer, in place, and the events it raises are handled before the context is left |
| `ReqSocket.ReqSocket.WorkerExpires` | src/external/nanomsg/src/aio/worker_posix.inc:180-190 | the worker reports a timeout that is due, in place |
| `Routing.Bottom` | src/external/nanomsg/src/protocols/reqrep/xrep.c:216-234 | the scan for the bottom of the stack ends within the data |
| `Routing.OneHop` | src/external/nanomsg/src/protocols/reqrep/xrep.c:192-261 | one hop splits off exactly the header that was sent and pushes its key |
| `Routing.BottomExact` | src/external/nanomsg/src/protocols/reqrep/xrep.c:216-234 | the bottom of the stack is the first word with its top bit set, and there is none if and only if no such word lies within the data |
| `Routing.RecvExact` | src/external/nanomsg/src/protocols/reqrep/xrep.c:192-261 | whatever arrives: it is dropped if and only if it is a runt without a bottom word or has more words than allowed, and otherwise received with the key of its pipe in front of its words, and the rest as its body |
| `Routing.ForwardExact` | src/external/nanomsg/src/protocols/reqrep/xrep.c:192-261 | a request arrives through any chain of hops if and only if no hop finds more words than it allows; it arrives with the keys stacked on the header and its body untouched |
| `Routing.BackExact` | src/external/nanomsg/src/protocols/reqrep/xrep.c:155-190 | a reply with that stack comes back over the incoming pipes in reverse order if and only if each of them is still known by its key and writable |
| `Routing.RoundTrip` | src/external/nanomsg/src/protocols/reqrep/xrep.c:155-261 | for every chain: there if and only if within the limits, back if and only if the way is open, and the requester gets its own identifier and the untouched answer |
| `Routing.ChangedValid` | src/external/nanomsg/src/protocols/reqrep/xrep.c:87-147 | adding, removing and (un)blocking pipes keeps keys and pipes in bijection, with keys below 2^31, and the keys of all others |
| `Routing.KeyLasts` | src/external/nanomsg/src/protocols/reqrep/xrep.c:87-147 | whatever pipes come and go, a pipe that stays keeps its key and the key leads to it alone |
| `Routing.TableExact` | src/external/nanomsg/src/protocols/reqrep/xrep.c:87-190 | after any changes and for every pipe: it is in the table if and only if it has joined since it last left, and can take a message if and only if the last of its joining, becoming ready and becoming busy was the becoming ready |
| `Routing.JoinSucceeds` | src/external/nanomsg/src/protocols/reqrep/xrep.c:87-113 | from an empty table keys are given out in order, and the next one is free for the first 2^31 pipes, whichever have left |
| `RoutingSockets.XRep.Add` | src/external/nanomsg/src/protocols/reqrep/xrep.c:87-113 | a pipe added in place, blocked, under the next key; the other pipes stay as they are |
| `RoutingSockets.XRep.Remove` | src/external/nanomsg/src/protocols/reqrep/xrep.c:115-128 | a pipe removed in place |
| `RoutingSockets.XRep.Out` | src/external/nanomsg/src/protocols/reqrep/xrep.c:137-147 | a pipe that becomes writable, in place: it can take a message, the other pipes stay as they are |
| `RoutingSockets.XRep.Recv` | src/external/nanomsg/src/protocols/reqrep/xrep.c:192-261 | the scan over the words of the body, in place |
| `RoutingSockets.XRep.Send` | src/external/nanomsg/src/protocols/reqrep/xrep.c:155-190 | popping the key and sending, in place: the message goes to a pipe that can take it, which is blocked afterwards if and only if it says so; the other pipes stay as they are |
| `RoutingSockets.Rep.Recv` | src/external/nanomsg/src/protocols/reqrep/rep.c:116-139 | receiving in place: a request in progress is cancelled first, also if nothing has arrived or what has is dropped, and the new backtrace is stored |
| `RoutingSockets.Rep.Send` | src/external/nanomsg/src/protocols/reqrep/rep.c:91-114 | a reply goes back along the stored backtrace, once |
| `Chunk.TrimmedResolves` | src/external/nanomsg/src/utils/chunk.c:183-205 | after a cut the new pointer resolves and what is left is untouched, although tag and offset may overwrite what was cut off |
| `Chunk.TrimmedAllResolves` | src/external/nanomsg/src/utils/chunk.c:183-216 | after any sequence of cuts the pointer leads back to the header and to the right suffix of the message |
| `Chunk.SharedTrim` | src/external/nanomsg/src/utils/chunk.c:183-205 | what a second holder of the old pointer reads after a cut of eight bytes or more: not the rest of the message but its start, as long as the rest, with the two words in it |
| `Chunk.TagLost` | src/external/nanomsg/src/utils/chunk.c:183-216 | the old pointer still resolves after a cut of n bytes if and only if n is 0, or at least 8, or 4 to 7 and the new offset happens to complete the tag |
| `Chunk.Alloc` | src/external/nanomsg/src/utils/chunk.c:60-96 | allocation with its two error codes, overflow included |
| `Chunk.Chunk.GetPtr` | src/external/nanomsg/src/utils/chunk.c:207-216 | the header is found from the pointer |
| `Chunk.Chunk.Trim` | src/external/nanomsg/src/utils/chunk.c:183-205 | trimming in place: the rest of the message, the size, and size plus empty space unchanged |
| `Chunk.Chunk.AddRef` | src/external/nanomsg/src/utils/chunk.c:168-176 | references are added |
| `Chunk.Chunk.Free` | src/external/nanomsg/src/utils/chunk.c:146-166 | one reference less; with the last one the tag is replaced, so that the pointer no longer resolves, and the memory goes |
| `ChunkRef.ChunkRef.Init` | src/external/nanomsg/src/utils/chunkref.c:42-56 | inline below 32 bytes, a chunk from there on |
| `ChunkRef.ChunkRef.GetChunk` | src/external/nanomsg/src/utils/chunkref.c:77-94 | whatever the form, a chunk with the same bytes, and the reference is left empty |
| `ChunkRef.ChunkRef.Trim` | src/external/nanomsg/src/utils/chunkref.c:127-140 | in both forms the bytes lose exactly their first n |
| `ChunkRef.ChunkRef.Size` | src/external/nanomsg/src/utils/chunkref.c:120-125 | in both forms the number of bytes |
| `ChunkRef.Mv` | src/external/nanomsg/src/utils/chunkref.c:96-100 | the copied part suffices: the same bytes in the same form |
| `ChunkRef.Cp` | src/external/nanomsg/src/utils/chunkref.c:102-111 | two references to the same bytes, a chunk counted once more |
| `ChunkRef.BulkCopyCp` | src/external/nanomsg/src/utils/chunkref.c:152-155 | a bitwise copy is another reference to the same bytes |
| `List.List.ItemsDistinct` | src/external/nanomsg/src/utils/list.c:72-111 | in a list whose links are in order no item occurs twice |
| `List.List.Insert` | src/external/nanomsg/src/utils/list.c:72-87 | inserting before an item, or at the end, in place, with all links in order |
| `List.List.Erase` | src/external/nanomsg/src/utils/list.c:89-111 | erasing in place, with all links in order; the result is the following item |
| `List.List.Prev` | src/external/nanomsg/src/utils/list.c:56-63 | the item before, the last one before the end |
| `Dist.OneCopyEach` | src/external/nanomsg/src/protocols/utils/dist.c:84-103 | every ready pipe gets exactly one copy, the excluded one and all others none |
| `Dist.KeptExact` | src/external/nanomsg/src/protocols/utils/dist.c:94-101 | exactly the pipes that are released by the sending leave the list |
| `Dist.KeptInOrder` | src/external/nanomsg/src/protocols/utils/dist.c:86-103 | the others keep their order |
| `Dist.Dist.Send` | src/external/nanomsg/src/protocols/utils/dist.c:66-107 | the loop over the list that is edited in the meantime: one delivery to each ready pipe that is not excluded, that list, its length in the counter, and a reference count that grows by the deliveries minus one; a message nobody gets is freed |
| `Dist.Dist.SendAll` | src/external/nanomsg/src/protocols/utils/dist.c:86-103 | the loop itself |
| `Dist.Dist.Rm` | src/external/nanomsg/src/protocols/utils/dist.c:51-58 | removing a pipe that may or may not be in the list |
| `Dist.Dist.Out` | src/external/nanomsg/src/protocols/utils/dist.c:60-64 | a pipe that is ready again goes to the end of the list |
| `Priolist.PassedTurns` | src/external/nanomsg/src/protocols/utils/priolist.c:149-172 | advancing sends the served pipe to the back of the order of turns, or removes it; the others move up |
| `Priolist.RemovedTurns` | src/external/nanomsg/src/protocols/utils/priolist.c:60-95 | removing a pipe, current or not, leaves the order of the others as it is |
| `Priolist.JoinedTurns` | src/external/nanomsg/src/protocols/utils/priolist.c:104-122 | a new pipe is put somewhere into the order of turns, which is not always its end |
| `Priolist.JoinedInOrder` | src/external/nanomsg/src/protocols/utils/priolist.c:100-130 | pipes that are activated with no turn in between are served in that order, one right after the other: behind those from the current one to the end of the list, and before those in front of it |
| `Priolist.NearerByTurn` | src/external/nanomsg/src/protocols/utils/priolist.c:149-164 | every turn brings every other pipe nearer by exactly one |
| `Priolist.NoFartherByRemoval` | src/external/nanomsg/src/protocols/utils/priolist.c:60-95 | a removal takes no other pipe further away |
| `Priolist.LittleFartherByJoin` | src/external/nanomsg/src/protocols/utils/priolist.c:104-122 | an activation takes another pipe further away by at most one |
| `Priorities.ActivateValid` | src/external/nanomsg/src/protocols/utils/priolist.c:104-135 | current stays the highest priority that has a pipe |
| `Priorities.RmValid` | src/external/nanomsg/src/protocols/utils/priolist.c:60-102 | the same, or -1 if no pipe is left at all |
| `Priorities.AdvanceValid` | src/external/nanomsg/src/protocols/utils/priolist.c:149-176 | the same |
| `Priorities.ServesTheHighest` | src/external/nanomsg/src/protocols/utils/priolist.c:142-147 | the served pipe is active and no active pipe has a higher priority; there is none if and only if no pipe is active |
| `Priorities.BoundedWait` | src/external/nanomsg/src/protocols/utils/priolist.c:60-176 | in every run, a pipe that is neither served nor removed has seen no more turns of its priority than pipes before it and activations since |
| `Priorities.FullRound` | src/external/nanomsg/src/protocols/utils/priolist.c:149-176 | as many turns as there are pipes serve each exactly once and restore the order |
| `PriorityList.PriorityList.Activate` | src/external/nanomsg/src/protocols/utils/priolist.c:104-135 | activation in place |
| `PriorityList.PriorityList.Rm` | src/external/nanomsg/src/protocols/utils/priolist.c:60-102 | removal in place, with the search for the next slot |
| `PriorityList.PriorityList.Advance` | src/external/nanomsg/src/protocols/utils/priolist.c:149-176 | advancing in place, with the search for the next slot |
| `PriorityList.PriorityList.GetPipe` | src/external/nanomsg/src/protocols/utils/priolist.c:142-147 | the current pipe, or none |
| `Hash.Inserted` | src/external/nanomsg/src/utils/hash.c:90-106 | an item appended to its slot: the table stands for the larger map |
| `Hash.Erased` | src/external/nanomsg/src/utils/hash.c:114-121 | an item taken out of its slot: the table stands for the smaller map |
| `Hash.Found` | src/external/nanomsg/src/utils/hash.c:123-140 | searching one slot decides whether the key is in the map, and with which item |
| `Hash.MovedOne` | src/external/nanomsg/src/utils/hash.c:73-80 | moving one item keeps the map that old and new table stand for together |
| `Hash.SizeIs` | src/external/nanomsg/src/utils/hash.c:90-121 | the table holds exactly as many items as the map has keys |
| `HashTable.HashTable.Rehash` | src/external/nanomsg/src/utils/hash.c:55-87 | doubling keeps every key with its item, and their number |
| `HashTable.HashTable.Insert` | src/external/nanomsg/src/utils/hash.c:90-112 | insertion in place; afterwards twice the items do not exceed the slots, below 2^31 slots |
| `HashTable.HashTable.Erase` | src/external/nanomsg/src/utils/hash.c:114-121 | erasure in place |
| `HashTable.HashTable.Get` | src/external/nanomsg/src/utils/hash.c:123-140 | the item for the key if and only if there is one |
| `Sampling.NextLength` | src/riff.cpp:244-261 | the next sampling length is at least 1; which one it is states `Timing.LengthExact` |
| `Sampling.BeginKeeps` | include/riff/riff.hpp:482-604 | under alternating calls begin() never throws, whatever the new length, and claims exactly one task more |
| `Sampling.BeginStores` | include/riff/riff.hpp:561-583 | a begin() that answers a request hands over all tasks of the sample, and at least one; any other hands over nothing |
| `Sampling.EndKeeps` | include/riff/riff.hpp:628-645 | end() records the claimed tasks, no more and no less |
| `Sampling.TimesTelescope` | include/riff/riff.hpp:535-578 | when every call is timed, latency and idle time add up to the elapsed time exactly, so that the sample is consistent |
| `Sampling.ClosedMeans` | include/riff/riff.hpp:542-546 | for every configuration the throughput is the tasks by the elapsed time and the load the share of the time spent in tasks, above 100 if and only if the extrapolated latency exceeds the elapsed time, and never when every call is timed |
| `Sampling.StoredLoad` | include/riff/riff.hpp:561-583 | with whatever sampling lengths, the load of a stored sample that is not marked inconsistent is between 0 and 100 plus the threshold |
| `Sampling.LoadAboveExample` | include/riff/riff.hpp:108-109 | two tasks after which a sample with a load of more than 100 is stored and not marked |
| `Sampling.StoresExact` | include/riff/riff.hpp:482-604 | a thread that is asked and goes on working has cleared its flag after a stated number of tasks, and not before |
| `Sampling.CountIsExact` | src/riff.cpp:297-303 | for every run of n tasks and every sequence of sampling lengths the thread accounts for n tasks |
| `Sampling.BeginTimes` | include/riff/riff.hpp:490-512 | firstBegin is set by the first begin() of all and by no other, lastEnd by no begin() |
| `Sampling.TimesExact` | include/riff/riff.hpp:628-645 | after any run of tasks firstBegin is the first begin(), and lastEnd is the last end() if and only if that call was timed |
| `Timing.MarkExact` | include/riff/riff.hpp:561-583 | a sample is stored as inconsistent if and only if latency and idle time together are further from the elapsed time than the threshold, a percentage, below or above |
| `Timing.LengthExact` | src/riff.cpp:244-261 | the next sampling length is the least number of tasks that fill the sampling period at the measured time per task, or the default if that time is 0 |
| `Timing.BeginLength` | include/riff/riff.hpp:541-560 | a begin() that closes a sample leaves that length behind, any other one the length before |
| `Timing.EstimateExact` | include/riff/riff.hpp:530-645 | in every run latency, idle time and tasks of the sample are the sums of what was timed since the last sample was stored, each as often as the sampling length then said |
| `Timing.EstimateFresh` | include/riff/riff.hpp:530-545 | from a fresh thread: what begin() compares with the elapsed time is that sum, the gap that ends with it included |
| `Application.ThreadData.Begin` | include/riff/riff.hpp:482-604 | begin() in place |
| `Application.ThreadData.CloseSample` | include/riff/riff.hpp:534-601 | closing a sample in place is what the function says; its mark, length and sums are pinned down by `Timing.MarkExact`, `Timing.BeginLength` and `Timing.EstimateExact` |
| `Application.ThreadData.End` | include/riff/riff.hpp:628-645 | end() in place |
| `Application.Collect` | src/riff.cpp:106-131 | the aggregation loop adds up the stored samples, zeroes them and leaves the others alone |
| `Application.Summary` | src/riff.cpp:293-311 | terminate() adds up the tasks of all threads, those between two samples included, and takes the difference of the latest lastEnd and the earliest firstBegin field, in ms |
| `ExecutionTime.ReportedIs` | src/riff.cpp:294-311 | what is measured, over the threads of the joint state, is what the loop of terminate() works out from their fields |
| `ExecutionTime.IntervalExact` | include/riff/riff.hpp:692-700 | in every interleaving terminate() measures from the first begin() to the last end(), as documented, if and only if every thread has begun and the last end() was timed |
| `ExecutionTime.TimeExact` | src/riff.cpp:294-311 | in every interleaving with a begin() the reported ms are the documented ones if and only if what is measured too much and what is missing do not lead out of the same ms |
| `ExecutionTime.UntimedEndExample` | include/riff/riff.hpp:628-645 | a run of two tasks of almost five seconds for which no time at all is reported, because the second end() is not timed |
| `ExecutionTime.NeverBeganExample` | src/riff.cpp:304-306 | a run of one second for which two are reported, because the other thread never began |
| `Handshake.WorkKeeps` | include/riff/riff.hpp:561-583 | no step of a worker loses or doubles a task; the flag is cleared only when the answer is complete |
| `Handshake.StepsAreBegin` | include/riff/riff.hpp:561-603 | the single steps of a begin() that answers come to the same as an atomic begin() |
| `Consolidation.StepValid` | src/riff.cpp:62-184 | every step of every thread keeps the joint invariant |
| `Consolidation.NoRace` | src/riff.cpp:80-129 | in every interleaving a worker writes its stored sample only while its flag is set and the support thread reads and zeroes it only while it is clear: never both next |
| `Consolidation.Conserved` | src/riff.cpp:62-184 | in every interleaving the tasks recorded are the tasks in answers, in the answer in the making, and in stored and running samples: none lost, none twice |
| `Consolidation.AddAllMeans` | src/riff.cpp:106-131 | the loop over the samples sums tasks and throughput over all of them, load and latency per task over the consistent ones, and counts the others |
| `Consolidation.SentAnswer` | src/riff.cpp:133-178 | in every interleaving an answer that is sent is made of as many samples as there are threads: sums of tasks and throughput with nothing extrapolated, averages of load and latency over the consistent samples, marked inconsistent if and only if there is none or the user says so |
| `Consolidation.AdjustedThroughput` | src/riff.cpp:136-144 | an adjusted answer reports throughput and threads in the proportion in which throughput and answering threads were |
| `Consolidation.TerminateTotal` | src/riff.cpp:293-303 | in every interleaving, whatever the sampling lengths, the total of terminate() is the number of calls of end() on all threads |
| `Consolidation.AwaitedFalls` | src/riff.cpp:80-131 | a request makes all threads awaited; only a step of a thread ends the wait for it, and the round ends only when all have stored or the application terminates |
| `Consolidation.Progress` | src/riff.cpp:62-184 | the support thread by itself comes to the end of a round if and only if the application is terminating or every thread has stored, and then within a stated number of steps |
| `Consolidation.RoundEnds` | src/riff.cpp:62-184 | in every interleaving the round is over once the support thread has taken that many steps besides waiting |
| `Consolidation.RoundBlocked` | src/riff.cpp:85-104 | an awaited thread that takes no more steps blocks the answer in every interleaving without terminate() |
| `Consolidation.Halts` | src/riff.cpp:62-184 | once the application is terminating the support thread ends within a stated number of its own steps, whoever has not stored |
| `Load.AnswerLoad` | include/riff/riff.hpp:104-110 | in every interleaving the load in an answer that is sent and not marked inconsistent is between 0 and 100 plus the threshold |
| `Rounds.StepShadowed` | src/riff.cpp:62-184 | every step of the support thread and the workers is a run of the protocol with the monitor, with the same threads awaited, and an answer is sent exactly at the end of a round |
| `Consolidation.FailsExact` | src/riff.cpp:133-157 | a fatal error is reachable in some run if and only if there are no threads |
| `Monitoring.StepValid` | src/riff.cpp:62-327 | every step of support thread, terminating thread and monitor keeps the joint invariant |
| `Monitoring.RunSafe` | src/riff.cpp:364-400 | in every run no message is unexpected, each call has received exactly one answer or still waits, STOP is received at most once, with the right number of tasks, and last |
| `Monitoring.StopIsLast` | src/riff.cpp:313-320 | nothing is appended to the channel after STOP |
| `Monitoring.AckExact` | src/riff.cpp:322-325 | terminate() returns on the acknowledgement if and only if the support thread has received every request; otherwise the request itself is taken for it |
| `Monitoring.EarlyReturnExample` | src/riff.cpp:313-327 | a run in which terminate() returns while STOP has not been received |
| `Monitoring.AnswerComes` | src/riff.cpp:62-184 | in every run a call of getSample() that has not been answered has had fewer helpful steps than its distance from the answer, and there is a next one, of an awaited thread if there is one |
| `Monitoring.AnswerExact` | src/riff.cpp:85-104 | a waiting call can still be answered without terminate() if and only if no thread that will never store again is awaited |
| `Monitoring.BlockedExample` | src/riff.cpp:85-104 | a run with two threads, one of which has finished: the monitor waits for ever |
| `Monitoring.JoinExact` | src/riff.cpp:313-314 | once terminate() is waiting, the application by itself gets past the join if and only if the support thread is not in recv() with nothing to receive; a round is one step here, `Consolidation.Halts` bounds its own steps |
| `Monitoring.JoinBlocks` | src/riff.cpp:313-314 | otherwise no run without another call of getSample() gets past the join, and with one the application by itself does |

## Left out

- TrieHeap.TrieHeap.GiveUp: when the conversion of a dense node finds nine children, the writes past the new node before the assertion fails are not modelled.
- TrieMatch.MatchExact: the unsigned size that has wrapped below 0 is taken to be without limit; a second wrap after 2^64 bytes is not modelled.
- HashTable.HashTable.Insert: the item counter is unbounded; the source's would wrap with 2^32 items, one for every possible key.
- Dist.Dist.Send: a message has one reference count here; the source treats header, protocol header and body alike, each with its own. That copies are the same bytes is `ChunkRef.BulkCopyCp`.
- Priolist.PassedTurns: the list of a slot is a sequence here, not the linked list of `List`; likewise the lists of the hash table.
- Chunk.Chunk.AddRef: the 32-bit wrap of a reference count is not modelled.
- Routing.ChangedValid: a key that comes round again while still in use, after 2^31 pipes, is excluded, as the source asserts.
- Req.StepValid: a negative resend interval, which the option call would let through to an assertion, is excluded.
- Routing.BackExact: between the raw sockets of a hop a device forwards header and body as one; `nn_device` itself is not part of this model.
- Sampling.BeginKeeps: arithmetic is exact; rounding, custom fields and user aggregators are not modelled.
- Consolidation.SentAnswer: the two last looks at the stop flag, before the throw and before the send, are one step.
- Monitoring.AnswerExact: the rounds of the support thread are one state with a set of awaited threads; `Rounds.StepShadowed` maps its own steps to it. Polling intervals are not modelled.
- Monitoring.RunSafe: starts with a monitor that calls `waitStart()` first; a monitor that asks before START would find it unexpected. The payload of an answer is not carried.
- `nn_chunk_realloc`: it ignores trimmed space and copies the old size, so there is no clean contract to prove.
- `nn_hash_key`: the table is right for every hash function.
- Shutdown of sockets, options, statistics, endpoints and global state: plumbing around the modelled cores.
- `surveyor.c`, `respondent.c`, `xsurveyor.c`, `xrespondent.c`, `xbus.c`, push, pull and pair: variations on the modelled components.
- Poller, threads, semaphores, clocks, transports and platform code: operating system calls.
- `nanocat.c`, demos, performance programs and tick counters: command line and hardware.
