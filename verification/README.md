# A verified model of nanomsg's core

nanomsg is a C library of message sockets. This project models the parts of it that are hardest to get
right and proves what they promise, in Dafny, for all inputs and for all runs. `dafny verify dfyconfig.toml`
checks the whole of it.

| files | component |
|---|---|
| `TrieNode`, `TrieSubscribe`, `TrieUnsubscribe`, `TrieMatch`, `TrieRun`, `TrieMerge`, `Trie`, `XSub` | the subscription trie and the filter of a SUB socket |
| `Wire`, `Iteration`, `Cmsg`, `Routing`, `XRep` | the backtrace of a request through a chain of devices, and REP sockets |
| `Timer`, `Req`, `Surveyor` | the REQ and SURVEYOR state machines with their timer |
| `Message`, `MsgQueue`, `Inproc` | two connected inproc sessions and their message queue |
| `List`, `TimerSet`, `PrioList`, `Hash` | linked list, timeouts, round-robin scheduling and hash table |
| `Chunk`, `Dist` | message chunks, their reference counts and the distributor |
| `Sockets` | socket descriptors, and closing a socket that other threads still use |

Objects whose methods update their fields are classes, loops are loops, and each of them is proved against
a specification function or a property stated outright. Protocols are state machines: a `Run` method takes
any sequence of steps of the user, the peers, the worker thread and the pipes. A step of the source that
asserts something it could be wrong about sets `aborted` (or returns `Crash` or `None`) in the model; an
assertion that never fails is a Dafny assertion.

## Where the code does less than it promises

In these places the model follows the code. The property is proved together with the exact condition under
which it holds.

- A subscription is forgotten when a new one widens the child array of its own node from sparse to dense
  (the new node starts with reference count 0), and when the 32-bit count wraps. `SubscribeExact` says that
  these are the only cases, `WideningForgets` gives an example.
- Unsubscribing narrows a dense node to a sparse one and forgets its reference count in the same way
  (`NarrowingForgets`). An unsubscribe that ends at an empty rest takes whatever subscription the node there
  has, which may be a longer one (`UnsubscribeTakesAnother`), and any non-zero result from below counts as a
  removal, so that unsubscribing a string in a gap of a dense node returns 1 and leaves a wrong number of
  children behind (`UnsubscribeGapBreaks`). An unsubscribe that runs into a NULL pointer reads through it: on an
  empty trie any non-empty string does (`UnsubscribeReadsNull`). `UnsubscribeExact` has the exact condition; for
  a live subscription only narrowing is left (`UnsubscribeLive`).
- Compaction keeps the trie small only locally. Unsubscribing never leaves two nodes that fit into one
  (`UnsubscribeMerged`), but subscribing does when it cuts the prefix of an unused node's only child
  (`PairStrands`, a trie that three calls lead to); `SubscribeMerged` has the exact condition.
- Matching does not stop at the end of the message. The model reads the memory behind the message, which may
  hold anything: `MatchExact` says that the answer is right for every such memory if and only if the message
  does not end at a node that is no subscription.
- nn_sendmsg computes with 64-bit lengths taken from the control buffer. Its search for the protocol header
  never ends if it comes back to a property where it was before: a length of zero, a length that is aligned to
  zero (`WrappedLengthHangs`) or one that leads backwards (`BackwardLengthHangs`). `SearchEnds` says that these
  are the only ways. A header property that claims less than 16 bytes is read beyond the end of the buffer
  (`ShortHeaderBeyond`), `ExtractInside` says exactly when.
- REQ and SURVEYOR abort if the resend interval or the deadline is negative, which setting the option does not
  refuse (`NegativeIntervalAborts`, `NegativeDeadlineAborts`). A new socket on which no such value is set never
  aborts (`Req.FreshRun`).
- In state DONE, a REQ socket hands over the last message it has pulled, which is not the reply it accepted if
  another one came later (`Req.Req.Recv`): the user then gets freed memory (`LaterMessageSpoils`).
- Adding an endpoint to a socket whose close has begun can make an assertion fail (`LateEndpointAborts`);
  `Sockets.Run` has the exact condition.
- Trimming a chunk changes what the other references to it see (`Chunk.Chunk.Trim`).

## Model

| member | source | states |
|---|---|---|
| `TrieNode.RootNullIffEmpty` | src/protocols/pubsub/trie.h:44-84 | in a well-shaped trie (dense iff at least 9 children, exact `nbr`, outer slots in use, distinct sparse characters, short prefixes, no unused leaf) the root is NULL iff nothing is subscribed |
| `TrieNode.SetSlotCounts` | src/protocols/pubsub/trie.c:172-201 | replacing a child changes exactly the counts of the strings that lead through it |
| `TrieNode.LiveBelow` | src/protocols/pubsub/trie.h:44-84 | below every node of a well-shaped trie there is a live subscription |
| `TrieSubscribe.CompactShape` | src/protocols/pubsub/trie.c:203-234 | a compaction, whether it merges or not, gives a well-shaped node; which of the two it does is `TrieMerge.CompactNodes` |
| `TrieSubscribe.CompactKeeps` | src/protocols/pubsub/trie.c:203-234 | a compaction keeps the count of every string: the merged node stands for the strings of both |
| `TrieSubscribe.SplitShape` | src/protocols/pubsub/trie.c:285-300 | splitting a prefix gives a well-shaped node above a well-shaped node |
| `TrieSubscribe.SplitKeeps` | src/protocols/pubsub/trie.c:285-300 | splitting a prefix keeps the count of every string |
| `TrieSubscribe.AddSlotChildren` | src/protocols/pubsub/trie.c:302-400 | a new slot in a sparse, a widened or an extended dense array leaves every other child where it is found |
| `TrieSubscribe.AddSlotShape` | src/protocols/pubsub/trie.c:302-400 | growing or widening the array keeps the shape once the slot is filled |
| `TrieSubscribe.FreshShape` | src/protocols/pubsub/trie.c:402-433 | the chain of new nodes for a long string is well-shaped |
| `TrieSubscribe.FreshCount` | src/protocols/pubsub/trie.c:402-433 | the chain of new nodes stores its own string once and nothing else |
| `TrieSubscribe.SubscribeShape` | src/protocols/pubsub/trie.c:236-437 | subscribing keeps the shape of the whole trie unless the count of the string is at its maximum |
| `TrieSubscribe.SubscribeCount` | src/protocols/pubsub/trie.c:236-437 | every count after a subscribe |
| `TrieSubscribe.SubscribeLoss` | src/protocols/pubsub/trie.c:359-400 | whenever the guard of the loss is met, some live subscription is really gone afterwards, and it is a prefix of the new one |
| `TrieSubscribe.SubscribeExact` | src/protocols/pubsub/trie.c:236-437 | a subscribe adds one to the count of its string and changes no other, if and only if it does not widen a live node or wrap a count; the result is 1 iff the string is new |
| `TrieUnsubscribe.EndCount` | src/protocols/pubsub/trie.c:477-512 | where the walk ends tells whether the string is subscribed |
| `TrieUnsubscribe.RemoveShape` | src/protocols/pubsub/trie.c:519-625 | cutting, trimming and narrowing a child array keep the shape, and the conversion assertion holds |
| `TrieUnsubscribe.RemoveCount` | src/protocols/pubsub/trie.c:519-625 | cutting, trimming and narrowing take away the strings below the child, and the node's own one exactly if it narrows |
| `TrieUnsubscribe.HitShape` | src/protocols/pubsub/trie.c:477-655 | an unsubscribe that ends at a subscription keeps the shape, does not crash, frees the root exactly if `Vanishes`, and returns 1 iff that count was 1 |
| `TrieUnsubscribe.HitCount` | src/protocols/pubsub/trie.c:477-655 | every count after an unsubscribe that ended at a subscription |
| `TrieUnsubscribe.NarrowLoss` | src/protocols/pubsub/trie.c:602-625 | whenever a live node is narrowed, its subscription is really gone |
| `TrieUnsubscribe.UnsubscribeExact` | src/protocols/pubsub/trie.c:477-655 | an unsubscribe takes away one subscription to its string, changes nothing else and returns 1 iff it was the last, if and only if its walk ends well and narrows no live node |
| `TrieUnsubscribe.UnsubscribeLive` | src/protocols/pubsub/trie.c:477-655 | for a live subscription the only thing that can go wrong is narrowing a live node |
| `TrieMatch.MatchExact` | src/protocols/pubsub/trie.c:439-470 | match says "some live subscription is a prefix of the message" for every content of the memory behind the message, if and only if the message does not end at an unused node |
| `TrieMatch.MatchWithin` | src/protocols/pubsub/trie.c:439-470 | if the message does not end at an unused node, the answer is right whatever the memory holds |
| `TrieMatch.OverreadMisses` | src/protocols/pubsub/trie.c:439-470 | a message that ends at an unused node has no live prefix |
| `TrieRun.RunExact` | src/protocols/pubsub/trie.c:236-655 | over any run of subscribes and unsubscribes the trie's strings and counts equal the plain multiset and each result is 1 exactly when a count turns, if and only if no step meets one of the failing guards |
| `TrieRun.FreshRunExact` | src/protocols/pubsub/trie.c:52-55 | the same for every run of a new trie |
| `TrieRun.SafeStep` | src/protocols/pubsub/trie.c:236-655 | a call that meets no failing guard does not crash and leaves a well-shaped trie |
| `TrieRun.PrefixFreeRuns` | src/protocols/pubsub/trie.c:236-655 | a run is faithful whatever the trie looks like inside if no proper prefix of a string is live when that string is subscribed or unsubscribed, only live strings are unsubscribed, and no count is at its maximum at a subscribe |
| `TrieRun.WideningForgets` | src/protocols/pubsub/trie.c:359-400 | a subscribe after which an older subscription is gone |
| `TrieRun.NarrowingForgets` | src/protocols/pubsub/trie.c:602-625 | an unsubscribe of a live string after which another live string is gone |
| `TrieRun.UnsubscribeReadsNull` | src/protocols/pubsub/trie.c:491-493 | unsubscribing any non-empty string on an empty trie reads a NULL pointer |
| `TrieRun.UnsubscribeGapBreaks` | src/protocols/pubsub/trie.c:506-600 | an unsubscribe of a string that is not live returns 1 and leaves a trie with a wrong number of children |
| `TrieRun.UnsubscribeTakesAnother` | src/protocols/pubsub/trie.c:488-489 | an unsubscribe of the empty string that removes a three-byte subscription |
| `TrieMerge.CompactNodes` | src/protocols/pubsub/trie.c:203-234 | a compaction frees exactly one node if the node is unused, has one sparse child and the joined prefix has at most ten bytes, and none otherwise |
| `TrieMerge.CompactMerged` | src/protocols/pubsub/trie.c:203-234 | what a compaction leaves can be merged again only if the child could be before; prefixes never get shorter |
| `TrieMerge.RemoveMerged` | src/protocols/pubsub/trie.c:519-625 | no node can be merged where a slot was cut, trimmed or narrowed away |
| `TrieMerge.FoundMerged` | src/protocols/pubsub/trie.c:627-655 | nor where the walk of an unsubscribe ended |
| `TrieMerge.UnsubscribeMerged` | src/protocols/pubsub/trie.c:477-655 | if no node of the trie can be merged with its child, the same holds after every unsubscribe that does not crash, of whatever string |
| `TrieMerge.FreshMerged` | src/protocols/pubsub/trie.c:402-433 | in the chain of nodes for a long string no two fit into one |
| `TrieMerge.SubscribeMerged` | src/protocols/pubsub/trie.c:236-437 | the same holds after a subscribe if and only if it does not cut the prefix of an unused node's only child so that the first part would fit, and no counter overflows |
| `TrieMerge.RunMerged` | src/protocols/pubsub/trie.c:236-655 | over any run in which no call goes wrong, no two nodes ever fit into one if and only if no subscribe of it does that |
| `TrieMerge.PairReached` | src/protocols/pubsub/trie.c:236-655 | three calls from an empty trie to an unused node whose only child is too long to be merged |
| `TrieMerge.PairStrands` | src/protocols/pubsub/trie.c:285-300 | after which a subscribe that cuts this child leaves two nodes that fit into one |
| `Trie.CheckPrefix` | src/protocols/pubsub/trie.c:156-170 | the loop finds how far prefix and memory agree, and whether the whole prefix is there |
| `Trie.NextSlot` | src/protocols/pubsub/trie.c:179-201 | the search for a child's slot |
| `Trie.Widen` | src/protocols/pubsub/trie.c:359-400 | the loops that find the range and spread the pointers give the widened node of the specification |
| `Trie.Walk` | src/protocols/pubsub/trie.c:236-283 | the walk leaves the subscribe to be finished at the pointer it has moved, and keeps the count of the string |
| `Trie.Grow` | src/protocols/pubsub/trie.c:402-433 | the loop that appends nodes builds the chain of the specification through the moved pointer |
| `Trie.Trie.Subscribe` | src/protocols/pubsub/trie.c:236-437 | the imperative subscribe computes the specified trie and returns 1 iff the string was not subscribed |
| `Trie.Remove` | src/protocols/pubsub/trie.c:519-625 | the loops that cut, trim or convert a child array give the specified node |
| `Trie.UnsubscribeNode` | src/protocols/pubsub/trie.c:477-655 | the recursive unsubscribe computes the specified outcome |
| `Trie.Trie.Unsubscribe` | src/protocols/pubsub/trie.c:472-475 | the trie becomes the specified one |
| `Trie.Trie.Match` | src/protocols/pubsub/trie.c:439-470 | the walking loop decides the specified match |
| `XSub.XSub.Recv` | src/protocols/pubsub/xsub.c:160-184 | returns the first pulled message the trie lets through and leaves exactly the ones behind it |
| `XSub.FilterByPrefix` | src/protocols/pubsub/xsub.c:160-184 | the message returned is the first that has a live subscription as a prefix, and only messages without one are thrown away |
| `Wire.GetPut` | src/utils/wire.c:43-57 | reading back a written number gives the number |
| `Wire.PutGet` | src/utils/wire.c:43-57 | writing a number that was read gives the same bytes |
| `Wire.Put` | src/utils/wire.c:51-57 | four bytes of the buffer change and no other |
| `Cmsg.ControlRoundTrip` | src/core/global.c:941-988 | the protocol header put into the control buffer by nn_recvmsg is the one nn_sendmsg takes out, whatever the padding and the other properties are |
| `Cmsg.FoundBehind` | src/core/global.c:823-843 | whatever other properties are in front of it, nn_sendmsg takes the same header from the buffer |
| `Cmsg.RoundTripBehind` | src/core/global.c:823-843 | the header that nn_recvmsg put into the control buffer is found behind any properties of other kinds, as long as the buffer is shorter than 2^64 - 24 bytes |
| `Cmsg.NoneFound` | src/core/global.c:823-843 | a buffer that holds only properties of other kinds, of any number and length, has no header |
| `Cmsg.Fill` | src/core/global.c:941-988 | the buffer holds the property, the old padding and as much of the other properties as fits; nothing is written if the property does not fit |
| `Cmsg.AlignWraps` | src/nn.h:287-288 | aligning a 64-bit length wraps around for the seven largest ones |
| `Cmsg.SearchEnds` | src/core/global.c:401-444 | the search over the properties ends if and only if it does not come back to a property where it was before, and then within as many rounds as the buffer has bytes |
| `Cmsg.PlainSearchEnds` | src/core/global.c:401-444 | if no length on the way makes the next offset wrap around, the search ends if and only if none of them is zero |
| `Cmsg.CheckEnds` | src/core/global.c:401-444 | a caller can decide in advance whether the search ends |
| `Cmsg.Search` | src/core/global.c:823-843 | a search that does not come back ends at the first protocol header, or with none |
| `Cmsg.ExtractInside` | src/core/global.c:826-838 | reading the header leaves the buffer if and only if the length is below 16 or wraps the end of the property around, and the size believed then is not there or too large |
| `Cmsg.WrappedLengthHangs` | src/core/global.c:401-444 | a buffer with a length of 2^64 - 1 on which the search does not end |
| `Cmsg.BackwardLengthHangs` | src/core/global.c:401-444 | a buffer with a length of 2^64 - 16 on which the search goes back and forth |
| `Cmsg.BackwardMayEnd` | src/core/global.c:401-444 | a length that leads backwards after which the search does end, so that no condition on single lengths is exact |
| `Cmsg.ShortHeaderBeyond` | src/core/global.c:826-838 | a header property of length 8 that is read beyond the buffer |
| `Routing.ForwardKeeps` | src/devices/device.c:284-319 | a device hands on the header and the body unchanged |
| `Routing.BottomOfStack` | src/protocols/reqrep/xrep.c:212-231 | the parser stops at the request id and at no pipe key |
| `Routing.Push` | src/protocols/reqrep/xrep.c:191-260 | receiving puts the pipe's key on the stack exactly if the stack is not too high |
| `Routing.Pop` | src/protocols/reqrep/xrep.c:154-189 | sending takes the top key off and uses that key's pipe exactly if it is there and ready |
| `Routing.RequestArrives` | src/protocols/reqrep/xrep.c:191-260 | a request passes a chain of devices iff each is within its own limit, and carries all their keys |
| `Routing.ReplyReturns` | src/protocols/reqrep/xreq.c:178-205 | a reply passes the chain backwards iff every pipe is live and ready, and loses exactly those keys |
| `Routing.ExchangeExact` | src/protocols/reqrep/xrep.c:154-260 | through any chain of devices, control buffers included, the reply comes back to the REQ socket with its own request id and the reply's body unchanged, if and only if no limit is exceeded and every pipe on the way back is live and ready |
| `Routing.ExchangeAnswers` | src/protocols/reqrep/req.c:141-196 | that message is an answer to the request |
| `XRep.KeysDiffer` | src/protocols/reqrep/xrep.c:86-112 | of 2^31 pipes added in a row no two get the same key |
| `XRep.XRep.Add` | src/protocols/reqrep/xrep.c:86-112 | the key has a clear top bit; the hash assertion fails iff the key is in use, never among the first 2^31 pipes |
| `XRep.XRep.Rm` | src/protocols/reqrep/xrep.c:114-127 | the key leaves the table |
| `XRep.XRep.MarkOut` | src/protocols/reqrep/xrep.c:140-146 | the pipe becomes ready and nothing else changes |
| `XRep.XRep.Send` | src/protocols/reqrep/xrep.c:154-189 | sends what the routing specification says, and the used pipe stops being ready exactly if it says so |
| `XRep.FindBottom` | src/protocols/reqrep/xrep.c:212-231 | the loop over the header finds the first word with its top bit set |
| `XRep.XRep.Recv` | src/protocols/reqrep/xrep.c:191-260 | header and body are split as the routing specification says |
| `XRep.OwnKey` | src/protocols/reqrep/xrep.c:86-112 | with at most 2^31 pipes a key leads to its own pipe or to none |
| `XRep.HopKeyed` | src/protocols/reqrep/xrep.c:86-112 | such a socket is a hop of the kind the chain theorem asks for |
| `XRep.ReplyRoute` | src/protocols/reqrep/xrep.c:154-189 | a reply goes to a pipe with the key of the request's pipe, without that key, and is sent iff that pipe is live and ready |
| `XRep.Rep.Recv` | src/protocols/reqrep/rep.c:115-140 | a request is accepted iff there is a message and it has a bottom within the limit, its body is what follows the header, and an unanswered request is given up in any case |
| `XRep.Rep.Send` | src/protocols/reqrep/rep.c:90-113 | EFSM iff no request is in progress; with at most 2^31 pipes, delivered iff the pipe the request came from is still there and ready; the request is used up |
| `XRep.PairedFaithful` | src/protocols/reqrep/rep.c:90-140 | replies to a pipe with the request's key are replies to the request's pipe |
| `XRep.Run` | src/protocols/reqrep/rep.c:90-140 | over any run with at most 2^31 pipes added, nothing aborts before the 2^31-th, and each delivered reply directly follows its own request, goes to the pipe it came from with its header, so no request is answered twice |
| `Timer.Timer.Start` | src/aio/timer.c:76-83 | works iff the interval is not negative, the timer is idle and no stopped event is waiting; then a timeout is to come |
| `Timer.Timer.Stop` | src/aio/timer.c:85-113 | an active timer is stopping behind the tasks it has already, any other stays as it is; no assertion fails |
| `Timer.Timer.Execute` | src/aio/timer.c:90-177 | the worker's next task meets no bad state in any phase; the start task puts the timer into the timer set for the time it was started with, and the stopped event comes exactly with the stop task |
| `Timer.Timer.Expire` | src/aio/worker_posix.inc:180-191 | an armed timer leaves the set and its expiration is about to be fed |
| `Timer.Timer.Feed` | src/aio/timer.c:147-170 | an expiration that reaches a stopping timer is ignored, any other raises the timeout |
| `Req.Req.ActionSend` | src/protocols/reqrep/req.c:603-635 | the request is handed to one ready pipe, which is the one remembered, and a timeout is to come; without a ready pipe nothing is handed over; it aborts iff delay is not allowed or the interval is negative |
| `Req.Req.Handler` | src/protocols/reqrep/req.c:343-597 | every state and input: the timer's phase that belongs to the new state, `sent_to` set iff active, and the request handed over exactly if the timer is started; it aborts iff the table has no entry or the interval is negative |
| `Req.Req.Shutdown` | src/protocols/reqrep/req.c:320-341 | the machine is idle iff the timer is and no stopped event is waiting |
| `Req.Req.Drain` | src/aio/ctx.c:51-64 | a timeout leads to TIMED_OUT; a stopped timer to DONE if the request was answered and otherwise to the request being handed over, or delayed without a pipe; nothing else happens, and it aborts iff it would send with a negative interval |
| `Req.Req.Send` | src/protocols/reqrep/req.c:230-253 | a new request gets the next id and replaces the old one in every state: it is handed over at once, delayed without a pipe, or waits for the old timer to stop; it aborts iff it is sent at once with a negative interval |
| `Req.Req.Recv` | src/protocols/reqrep/req.c:255-277 | EFSM and EAGAIN exactly when promised; otherwise a message with this request's id was pulled while it was current, and the body handed over is that of the last message pulled iff it has this id too |
| `Req.Req.In` | src/protocols/reqrep/req.c:141-196 | pulls until a message answers the current request; only then does an active request stop being sent again, and nothing is handed over |
| `Req.Req.Out` | src/protocols/reqrep/req.c:198-210 | a delayed request is handed to this pipe, any other state only gains a ready pipe |
| `Req.Req.Rm` | src/protocols/reqrep/req.c:649-658 | the request is scheduled again iff it had gone to the pipe that is removed; nothing is handed over yet |
| `Req.Req.Stop` | src/protocols/reqrep/req.c:114-121 | stopping is possible in every state |
| `Req.Req.WorkerExecute` | src/aio/timer.c:90-177 | the start task arms the timer for the interval the request was sent with; the task after which the timer has stopped hands over a cancelled or timed-out request if a pipe is ready and finishes an answered one; it aborts iff this sends with a negative interval |
| `Req.Req.WorkerFeed` | src/aio/timer.c:147-170 | the expiration of an active request leads to TIMED_OUT, any other is ignored |
| `Req.Perform` | src/protocols/reqrep/req.c:343-658 | one step of the user, a pipe or the worker keeps the machine valid unless the interval is negative, and no step but a call of the user ends a request |
| `Req.Run` | src/protocols/reqrep/req.c:343-658 | no run of calls, pipe events and worker steps aborts unless a negative interval was set; in every state the timer's phase, `sent_to`, the recorded reply and what was handed over last fit the state, and a request that waits for its reply has a timeout to come |
| `Req.FreshRun` | src/protocols/reqrep/req.c:79-102 | from a new socket, no run aborts in which every interval that is set is non-negative |
| `Req.Submitted` | src/protocols/reqrep/req.c:230-253 | a request that is sent in any state stays the current one through every run of pipe events and worker steps, and whenever the worker has no task left and a pipe is ready, it is what was handed over last |
| `Req.Polled` | src/protocols/reqrep/req.c:255-277 | so the user is never told that there is no request |
| `Req.Settle` | src/protocols/reqrep/req.c:475-552 | when the worker has executed its tasks, a cancelled or timed-out request was handed over exactly once more if a pipe was ready, an answered one is done, and nothing else was handed over |
| `Req.TimesOut` | src/protocols/reqrep/req.c:455-464 | a request that is not answered comes to TIMED_OUT by the steps of the worker, from whatever the worker has done already |
| `Req.SentAgain` | src/protocols/reqrep/req.c:475-483 | it is then handed over once more, the same message under the same id, at once or with the next pipe |
| `Req.Answered` | src/protocols/reqrep/req.c:421-589 | a request that is sent and answered comes to DONE whatever the worker has done of its tasks |
| `Req.AnswerReceived` | src/protocols/reqrep/req.c:255-277 | the user then gets the body of the answer |
| `Req.LaterMessageSpoils` | src/protocols/reqrep/req.c:141-196 | if another message is pulled first, the user gets freed memory |
| `Req.SendAll` | src/protocols/reqrep/req.c:230-253 | the n-th request in a row has the id n after the first |
| `Req.NegativeIntervalAborts` | src/protocols/reqrep/req.c:279-297 | a negative interval does abort |
| `Req.WireIdsDiffer` | src/protocols/reqrep/req.c:236-243 | requests less than 2^31 apart have different wire ids |
| `Req.StaleReplyIgnored` | src/protocols/reqrep/req.c:141-196 | a reply to a request answers it and none of the next 2^31 - 1 requests |
| `Surveyor.Surveyor.Publish` | src/protocols/survey/surveyor.c:491-499 | the current survey is published and a timeout is to come after its deadline; it aborts iff the deadline is negative |
| `Surveyor.Surveyor.Handler` | src/protocols/survey/surveyor.c:339-489 | every state and input: next state, timer phase, publication and timeout mark; it aborts iff the table has no entry or the deadline is negative |
| `Surveyor.Surveyor.Shutdown` | src/protocols/survey/surveyor.c:316-337 | the machine is idle iff the timer is and no stopped event is waiting |
| `Surveyor.Surveyor.Drain` | src/aio/ctx.c:51-64 | a timeout ends the survey and marks it; a stopped timer publishes the survey that is waiting, exactly once, or leaves none; it aborts iff it would publish with a negative deadline |
| `Surveyor.Surveyor.WorkerExecute` | src/aio/timer.c:90-177 | the start task arms the timer for the deadline the survey was sent with; the task after which the timer has stopped publishes the survey that is waiting |
| `Surveyor.Surveyor.WorkerFeed` | src/aio/timer.c:147-170 | the expiration of an active survey ends it and marks it as timed out, any other is ignored |
| `Surveyor.NegativeDeadlineAborts` | src/protocols/survey/surveyor.c:275-293 | a negative deadline does abort |
| `Surveyor.Surveyor.Send` | src/protocols/survey/surveyor.c:192-231 | a new survey gets a new id; it is published at once or waits for the timer of the one before it |
| `Surveyor.Surveyor.Recv` | src/protocols/survey/surveyor.c:233-273 | the first response to the current survey; ETIMEDOUT once after a deadline, then EFSM |
| `Surveyor.Run` | src/protocols/survey/surveyor.c:339-489 | no run aborts unless a negative deadline was set; the timer's phase fits the state throughout, and an active survey is what was published last and has a timeout to come |
| `Surveyor.Settle` | src/protocols/survey/surveyor.c:428-474 | when the worker has executed its tasks, a survey that replaced another was published once, and one that has run out is over |
| `Surveyor.Submitted` | src/protocols/survey/surveyor.c:192-231 | a survey that is sent in any state is published exactly once and can be received from |
| `Surveyor.TimesOut` | src/protocols/survey/surveyor.c:408-415 | an active survey runs out by the steps of the worker, from whatever the worker has done already |
| `Surveyor.Expired` | src/protocols/survey/surveyor.c:233-273 | then responses are still received until the timer has stopped, ETIMEDOUT is reported once, and after that EFSM |
| `Surveyor.SurveyIdsDiffer` | src/protocols/survey/surveyor.c:192-231 | surveys less than 2^31 apart have different ids |
| `Surveyor.StaleResponseIgnored` | src/protocols/survey/surveyor.c:259-266 | a response to a survey is one to it and to none of the next 2^31 - 1 surveys |
| `MsgQueue.MsgQueue.constructor` | src/transports/inproc/msgqueue.c:31-50 | an empty queue with one chunk |
| `MsgQueue.MsgQueue.Empty` | src/transports/inproc/msgqueue.c:76-79 | the counter is zero iff the queue is empty |
| `MsgQueue.MsgQueue.Send` | src/transports/inproc/msgqueue.c:81-116 | the chunk chain stands for the queue with the message behind it, iff the queue is empty or the total stays below the limit |
| `MsgQueue.MsgQueue.Spare` | src/transports/inproc/msgqueue.c:100-113 | the chunk is the cached one or new, and is not in the chain although its next pointer may be stale |
| `MsgQueue.MsgQueue.Recv` | src/transports/inproc/msgqueue.c:118-147 | the first message leaves the queue; counters, chain and allocated chunks stay exact |
| `MsgQueue.MsgQueue.Term` | src/transports/inproc/msgqueue.c:52-74 | no chunk is left allocated |
| `Inproc.AcceptsExact` | src/transports/inproc/msgqueue.c:81-116 | the queue takes a message exactly if it then holds one message or less than the limit |
| `Inproc.Send` | src/transports/inproc/sinproc.c:137-176 | a send on a ready pipe keeps the pair consistent and adds its message to what was sent |
| `Inproc.Recv` | src/transports/inproc/sinproc.c:178-214 | a receive returns the first message of the queue; a message left with the peer is offered to the rest of the queue again and stays there iff there is still no room |
| `Inproc.DeliverSent` | src/transports/inproc/sinproc.c:421-449 | the message stays with the peer if and only if the queue has no room for it, and otherwise it is the last in the queue |
| `Inproc.DeliverReceived` | src/transports/inproc/sinproc.c:451-455 | RECEIVED makes the pipe ready for sending again |
| `Inproc.PipeReceived` | src/core/pipe.c:101-110 | the inbound state machine of a pipe |
| `Inproc.Run` | src/transports/inproc/sinproc.c:137-214 | under any schedule and any delivery order: sent = received + queued + exposed message in both directions; the sending flag is set iff exactly one of SENT in flight, receiving flag, RECEIVED in flight holds; in-states, fair queue and pending events agree with the queues; a message is left with the sender only because the queue of the other side has no room for it |
| `Inproc.Advance` | src/core/pipe.c:177-214 | every delivery of an event and every receive brings the pair nearer to having delivered all |
| `Inproc.Deliver` | src/core/pipe.c:177-214 | no message is stranded: in whatever order events are delivered and messages received, this ends, and then everything sent was received and both sides are ready to send |
| `Inproc.QuietMeansDelivered` | src/core/pipe.c:177-214 | when no event is left and the user has received all, everything sent was received and the sender is ready |
| `List.List.Insert` | src/utils/list.c:72-87 | the pointer writes insert into the sequence the list stands for, anywhere |
| `List.List.Erase` | src/utils/list.c:89-111 | the pointer writes remove from the sequence and return the follower |
| `List.List.Empty` | src/utils/list.c:41-44 | the list is empty iff its sequence is |
| `TimerSet.TimerSet.FirstAfter` | src/aio/timerset.c:50-57 | the search loop stops at the first timeout that is due later |
| `TimerSet.TimerSet.Add` | src/aio/timerset.c:40-64 | sorted with ties in insertion order, no other handle moved; 1 iff the head has changed |
| `TimerSet.TimerSet.Rm` | src/aio/timerset.c:66-79 | exactly that handle is gone; 1 iff it was the head, 0 if it was not active |
| `TimerSet.TimerSet.Timeout` | src/aio/timerset.c:81-91 | -1 if there is none, otherwise the clipped distance of the earliest |
| `TimerSet.TimerSet.Event` | src/aio/timerset.c:93-112 | nothing iff nothing is due, otherwise the earliest handle and only it |
| `TimerSet.WaitExact` | src/aio/timerset.c:81-91 | the conversion to int is exact iff the wait is below 2^31 ms |
| `PrioList.AppendRing` | src/protocols/utils/priolist.c:104-135 | appending to a slot's list is queueing up at the seam of its ring |
| `PrioList.StepRing` | src/protocols/utils/priolist.c:149-176 | moving the cursor is rotating the ring |
| `PrioList.EraseRing` | src/protocols/utils/priolist.c:60-102 | erasing, with the cursor moved on when needed, is leaving the ring |
| `PrioList.WaitStep` | src/protocols/utils/priolist.c:60-176 | the wait of a pipe falls by one per service, rises by at most one per activation, and falls or stays on a removal |
| `PrioList.BoundedWait` | src/protocols/utils/priolist.c:60-176 | on one ring, a waiting pipe is passed at most as often as its first wait and the later activations together |
| `PrioList.RoundRobin` | src/protocols/utils/priolist.c:149-176 | n services without other events serve each of the n pipes once, in order |
| `PrioList.PrioList.constructor` | src/protocols/utils/priolist.c:33-42 | no pipe and no current priority |
| `PrioList.PrioList.Add` | src/protocols/utils/priolist.c:52-58 | a new pipe is not active |
| `PrioList.PrioList.Rm` | src/protocols/utils/priolist.c:60-102 | the pipe leaves the list of its slot, if it is there, with the cursor moved on; `current` is again the best non-empty priority |
| `PrioList.PrioList.Activate` | src/protocols/utils/priolist.c:104-135 | the pipe queues up in its own ring; `current` is again the best non-empty priority |
| `PrioList.PrioList.GetPipe` | src/protocols/utils/priolist.c:142-147 | none iff no pipe is active, otherwise the cursor of the best slot: no active pipe has a better priority |
| `PrioList.PrioList.Advance` | src/protocols/utils/priolist.c:149-176 | the served slot rotates or loses its cursor pipe; `current` is again the best non-empty priority |
| `PrioList.ServeRing` | src/protocols/utils/priolist.c:149-176 | the pipe at the cursor is the first of the ring, and serving it rotates the ring or takes that pipe out |
| `PrioList.PrioList.Serve` | src/protocols/utils/lb.c:66-87 | nothing is sent iff no pipe is active; otherwise the pipe at the cursor of the best active priority is used, and no other slot changes |
| `PrioList.ServeWhile` | src/protocols/utils/fq.c:61-83 | while a pipe waits, a better priority or its own is served, and in its own its wait falls by exactly one |
| `PrioList.Run` | src/protocols/utils/priolist.c:33-176 | any run of the list over all sixteen priorities: while an active pipe waits, every service goes to a better priority or its own, and those of its own are at most the pipes in front of it at the start and those activated at its priority later; it is over exactly if that pipe was served or removed |
| `Hash.SourceSlot` | src/utils/hash.c:142-153 | every key has a slot inside the table |
| `Hash.HashKnown` | src/utils/hash.c:142-153 | the hash of three keys |
| `Hash.PutStores` | src/utils/hash.c:90-112 | appending to the chain of its slot adds one key to the map the table stores |
| `Hash.TakeStores` | src/utils/hash.c:114-121 | cutting an entry out of a chain removes one key |
| `Hash.Redistribute` | src/utils/hash.c:55-88 | moving the items one by one into another number of slots keeps the map |
| `Hash.Hash.Insert` | src/utils/hash.c:90-112 | one key more, with at most half as many items as slots while the table can grow |
| `Hash.Hash.Erase` | src/utils/hash.c:114-121 | one key less |
| `Hash.Hash.Get` | src/utils/hash.c:123-140 | the item of the key iff it is there |
| `Chunk.Chunk.constructor` | src/utils/chunk.c:61-97 | a new chunk is found from its data pointer and holds the data |
| `Chunk.Chunk.GetPtr` | src/utils/chunk.c:227-236 | the header is found exactly if the two numbers in front of the pointer are right |
| `Chunk.Chunk.Trim` | src/utils/chunk.c:203-225 | the numbers written over trimmed data or over each other lead back to the header and the rest of the data is intact; through the old pointer the chunk never looks as before |
| `Chunk.TrimAll` | src/utils/chunk.c:203-225 | any number of trims leaves the remaining data |
| `Dist.Pool.BulkCopyStart` | src/utils/chunkref.c:142-150 | the counter grows by the number of copies to be made, for a chunk that exists |
| `Dist.Pool.Term` | src/utils/chunk.c:166-186 | one reference less; the chunk goes with the last one and its data never changes |
| `Dist.Pool.MsgBulkCopyStart` | src/utils/msg.c:62-67 | counters equal references again when all copies are counted as held, even if parts share a chunk |
| `Dist.Pool.MsgTerm` | src/utils/msg.c:41-46 | counters equal references after a message is gone, even if its parts share a chunk |
| `Dist.TargetsOnce` | src/protocols/utils/dist.c:66-107 | every ready pipe but the excluded one is a target, once |
| `Dist.StayingDistinct` | src/protocols/utils/dist.c:66-107 | the pipes that stay are the excluded one and those that can take more |
| `Dist.Dist.MarkOut` | src/protocols/utils/dist.c:60-64 | `count` is the length of the list |
| `Dist.Dist.Rm` | src/protocols/utils/dist.c:51-58 | the pipe is gone from the list, if it was there, and `count` follows |
| `Dist.Dist.SendNext` | src/protocols/utils/dist.c:87-102 | one pass of the loop, with the erase during the iteration |
| `Dist.Dist.Send` | src/protocols/utils/dist.c:66-107 | one equal copy to every target in order; references left: one per copy and those held elsewhere |
| `Dist.MakeRef` | src/utils/chunkref.c:42-56 | the reference reads as the data, inline exactly if there is room beside its length, otherwise in a chunk of its own |
| `Dist.Run` | src/protocols/utils/dist.c:51-107 | over any run every chunk's counter is the number of references the pipes' messages hold to it, every message reads as it was published, and without messages no chunk is left |
| `Sockets.Hold` | src/core/sock.c:1104-1117 | a hold is granted iff nobody has begun to close the socket |
| `Sockets.Drop` | src/core/sock.c:1119-1125 | dropping the last hold posts the semaphore, and only that; no endpoint is lost |
| `Sockets.Close` | src/core/global.c:524-548 | the hold taken and the owner's hold are dropped, the release semaphore is posted at once iff no call has a hold, and every endpoint the socket has is shutting down |
| `Sockets.AddEp` | src/core/sock.c:495-525 | one endpoint more; after the close began it counts as late |
| `Sockets.RmEp` | src/core/sock.c:527-560 | one endpoint is shutting down, and none is lost |
| `Sockets.EpStopped` | src/core/sock.c:842-925 | one endpoint less, and the last one to stop lets the protocol stop; it aborts if and only if the socket has stopped already, or another endpoint is left when the last one stops |
| `Sockets.CloseProgress` | src/core/sock.c:842-925 | whatever stops, drops its hold or gets past a wait leaves less to be done |
| `Sockets.CloseNotStuck` | src/core/sock.c:189-249 | no wake-up is lost: a socket that is being closed can be freed or has a step to take |
| `Sockets.CloseCompletes` | src/core/sock.c:189-249 | unless an endpoint came late, a close ends after a bounded number of steps in any order, with no call and no endpoint left |
| `Sockets.NextTakes` | src/core/sock.c:842-925 | a step of a run is the step of the close if that can be taken, and nothing otherwise |
| `Sockets.BalancedAt` | src/core/sock.c:842-925 | a step that changes the endpoints of one socket by those it adds and stops leaves every other descriptor as it was |
| `Sockets.AccountedStep` | src/core/sock.c:842-925 | if every endpoint that was added and has not stopped belongs to its socket, this is so after one more step |
| `Sockets.Perform` | src/core/global.c:446-573 | one step of any thread: it aborts exactly if an endpoint stops too late or is left over, every other socket keeps its endpoints, and the one concerned takes its step |
| `Sockets.PlacesLists` | src/core/global.c:258-275 | the stack lists every free descriptor once and no open one |
| `Sockets.Table.Init` | src/core/global.c:228-286 | the loops set up an empty table and a stack of all descriptors |
| `Sockets.Table.Take` | src/core/global.c:446-490 | the descriptor was free and is not in the stack any more |
| `Sockets.Table.Give` | src/core/global.c:559-566 | the descriptor is free and in the stack again, which has room for it |
| `Sockets.Table.Term` | src/core/global.c:288-324 | the table goes with the last socket |
| `Sockets.Global.Open` | src/core/global.c:446-522 | a descriptor no socket has; EMFILE if all 512 are open; other sockets stay |
| `Sockets.Global.Enter` | src/core/global.c:1144-1170 | a call gets a hold iff the descriptor is open and its close has not begun, EBADF otherwise |
| `Sockets.Global.Leave` | src/core/global.c:1172-1177 | the call's hold is gone and every other call keeps its own |
| `Sockets.Global.StartClose` | src/core/global.c:524-548 | of all threads that close a descriptor one succeeds, and no call gets a hold afterwards |
| `Sockets.Global.EndClose` | src/core/global.c:550-573 | when the socket is freed no call has a hold on it; it aborts iff endpoints are left, which were added late |
| `Sockets.Run` | src/core/global.c:446-573 | in any interleaving of opens, calls and closes: stack and table agree, every running call has a hold on a socket that is there, each semaphore is posted once, and the library aborts if and only if an endpoint stops when its socket cannot take it or is left when its socket is freed, which needs one added after the close began; unless it aborts, the endpoints added to a socket minus those stopped are the ones it has, so that a socket is freed only after each of them has stopped |
| `Sockets.LateEndpointAborts` | src/core/sock.c:495-525 | a run that aborts because a call adds an endpoint after the close began |

## Left out

- TCP, IPC and WebSocket transports, the poller, threads, mutexes, semaphores and clocks: operating-system wrappers; the model assumes a worker that runs its tasks in order, atomic locks and a monotone clock.
- Inproc connection set-up and tear-down: the order of events between contexts is not fixed by the code, so it promises nothing to prove.
- nn_chunk_realloc: nothing that is modelled calls it.
- nn_chunkref_getchunk, nn_chunkref_mv and nn_chunkref_cp: single steps on one reference, of which only the bulk copy is shared by several pipes.
- The other protocols (PAIR, PUSH, PULL, BUS, RESPONDENT, XSURVEYOR): repetitions or thin uses of the modelled parts.
- Options, statistics, error strings, the symbol table, nn_term, nn_init and the demo and performance programs.
- Trie nodes are values: reallocation, freeing and aliasing of nodes are not modelled, the pointer to a pointer that the source moves is a path (`Frame`, `Plug`). Memory behind a message is assumed to be readable.
- Trie.Trie.Subscribe: the length of a subscription is not limited to the width of `size_t`.
- Hash.Hash.Insert: a chain is a sequence where the source uses the linked list; `List` proves that the list is a sequence.
- PrioList.PrioList.Activate: a slot's list is a sequence, for the same reason.
- XRep.XRep.Add: the hash table is a map; `Hash` proves that the table is one.
- Dist.Dist.MarkOut: the list of pipes is a sequence, and the caller does not add a pipe that is in it.
- Inproc.Run: the queue is a sequence; `MsgQueue` proves that the chunk chain is one.
- Req.Req.In: the messages come in the order in which the fair queue delivers them; `PrioList` has the order in which pipes are served.
- XSub.XSub.Recv: the messages come in the order in which the fair queue delivers them.
- Req.Run: stored messages are values, so freeing them is only recorded (`Freed`), and the load balancer may choose any ready pipe.
- Surveyor.Run: stored messages are values, and publishing a survey is only recorded.
- TimerSet.TimerSet.Add: the 64-bit clock does not wrap around.
- Cmsg.ControlRoundTrip: 64-bit sizes in little-endian order, and headers so small that the property fits a buffer of less than 2^64 - 16 bytes.
- Cmsg.Search: a buffer on which the source searches for ever is excluded, because the method has to end; `SearchEnds` says which those are.
- Cmsg.ExtractInside: what is read beyond the buffer, and what is done with it, is not modelled.
- Routing.ExchangeExact: fewer than 2^31 devices, so that the header size fits the control buffer.
- Dist.Dist.Send: a chunk has fewer than 2^32 references, so the 32-bit counter does not wrap.
- Sockets.EpStopped: an endpoint is only counted; its own state machine is not modelled.
- Memory that cannot be allocated: the source aborts; only nn_socket reports it.
- XRep.XRep.Recv: a message whose header a pipe has split already (NN_PIPE_PARSED) is not modelled, because no transport sets that flag.
