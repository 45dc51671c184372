# The hard core of libzmq, verified

The messenger in this repository runs on the ZeroMQ library it vendors.  This project models the
algorithms of that library on which everything else rests, and proves what they are for.  Run
`dafny verify dfyconfig.toml` to check it (Dafny 4.11).

| part | files |
|---|---|
| Subscription multi-trie | `MtrieShape` (the trie as a value: meaning, canonical form, recursive removal), `MtrieZipper` (a place in a trie: the explicit stack as a value), `MtrieNode` (one node), `MtrieHeap` (nodes that spell a shape), `MtrieAdd`, `MtrieRmKey`, `MtrieRmValue` (the loops), `Mtrie` (match, runs) |
| Distributor | `PipeArray`, `Partition` (the three cursors as a value), `DistRun` (the classes of pipes as a machine), `Dist` |
| Messages | `Message` (handles and contents), `MessagePool` (runs over any number of handles) |
| Schedulers | `Lb`, `Fq` |
| Receive buffer | `Allocator` |
| Codecs | `Wire`, `Decoder`, `Encoder`, `V2` (ZMTP framing as an instance of both), `Multipart`, `Metadata` |
| Context | `Ctx` |
| Shared | `Wrappers`, `Runs` (runs of a machine) |

How it is modelled:

- What the source updates in place is a class with the same fields, and the loops are loops.  Each
  is proved against a function of values, about which the properties are then proved.
- A pipe is seen from one side.  Whether there is room for a write is up to the other side: a coin
  toss, unless its next answers are laid down, as they are where a run is exhibited.  What was
  written, flushed and taken back is recorded, and every written part carries a ghost stamp (which
  message, which part), from which prefixes and whole messages are stated.  What can be read is a
  queue that ends with the end of a message, as whole messages are flushed.
- A `Run` drives an object through any list of events and returns the states on the way; it is proved
  a run of a machine on values (`Moves`, `Steps`), with the invariant in every state.
- The receive buffer is a state machine whose steps are the atomic operations of the source, so
  its runs are all interleavings; the allocator's methods are sequences of such steps, with other
  threads in between.
- Asserts of the source are proof obligations; allocation succeeds.  Integers are unbounded, with
  the widths that matter written out (bytes, 32-bit and 64-bit sizes, `_min + _count <= 256`).

What turned out false of the code, each with its exact condition:

- In the distributor, `match` looks only at the eligible cursor (dist.cpp:83), so an eligible pipe
  that must wait for the next message is let in and pushes an active one out: `Partition.MatchedIff`,
  `Partition.MatchedPushesOut`.  `reverse_match` does the same: `Partition.ReversedIff`.  This is a
  precondition of `dist_t` and no fault a socket can show: the callers match between messages only
  (xpub.cpp:307) or refuse multipart messages (radio.cpp:151-157).
- `activated` of the distributor looks only whether some pipe is passive (dist.cpp:135).  A socket
  that writes to a pipe itself (xsub.cpp:268-287) may leave an active pipe without room; when that
  has room again (pipe.cpp:299-301), a passive pipe takes its place, and in the middle of a message
  gets the later parts without the first: `Partition.ActivatedIff`, `Dist.Dist.Activate`,
  `Dist.Displaced`.
- `activated` of the load balancer does not look at all (lb.cpp:74).  A pipe that fails in the
  middle of a message stays active (lb.cpp:108-127); its activation then makes another pipe active,
  or swaps beyond the end of the array: `Lb.Lb.Activated`, `Lb.Lb.Stuck`.
- In the load balancer and the fair queue, `pipe_terminated` sets the current position to 0 when
  the current pipe stood last among the active ones and a different one goes (lb.cpp:65, fq.cpp:61),
  so the rest of a message goes to, or comes from, another pipe: `Lb.Lb.PipeTerminated`,
  `Lb.Lb.Tear`, `Lb.Lb.Torn`, `Fq.Fq.PipeTerminated`, `Fq.Fq.AfterTear`, `Fq.Fq.Torn`.  In the
  fair queue `_more` also stays set when the current pipe goes.
- `v2_encoder_t` decides the large flag before it counts the byte in front of a subscription or
  cancellation (v2_encoder.cpp:59-64), so one of exactly 255 bytes is announced as small and sized
  as large: `V2.RoundTrip`, `V2.LostSubscription`.
- `parse_metadata` accepts a property cut off exactly behind its name or its length:
  `Metadata.ParseSerialised`, `Metadata.SerialisedParse`, `Metadata.CutOffAccepted`.

## Model

| member | source | states |
|---|---|---|
| `Mtrie.Trie.Run` | ExternalLib/libzmq/src/generic_mtrie_impl.hpp:67-539 | Any sequence of add, rm by key and rm by value leaves the trie standing for exactly the map the same operations make of a plain map, in canonical form, with separate nodes |
| `Mtrie.Trie.Add` | ExternalLib/libzmq/src/generic_mtrie_impl.hpp:67-151 | The contents gain the pipe at the key; true exactly if the key held nothing |
| `Mtrie.Trie.RmKey` | ExternalLib/libzmq/src/generic_mtrie_impl.hpp:400-539 | The contents lose the pipe at the key; the result is the right one of not found, last value removed, values remain |
| `Mtrie.Trie.RmValue` | ExternalLib/libzmq/src/generic_mtrie_impl.hpp:153-398 | The pipe leaves every key; the callbacks are strictly ascending keys, exactly those that held the pipe, and with call_on_uniq only those that held nothing else |
| `Mtrie.Trie.Match` | ExternalLib/libzmq/src/generic_mtrie_impl.hpp:541-581 | The callbacks are those of the plain map: prefixes of the message, shortest first, the pipes of each in address order |
| `Mtrie.Trie.AddThenRemove` | ExternalLib/libzmq/src/generic_mtrie_impl.hpp:67-151 | Adding a fresh entry and removing it restores the same tables in every node, `_min` aside where the count is 0 |
| `Mtrie.HitsCount` | ExternalLib/libzmq/src/generic_mtrie_impl.hpp:548-556 | Each pipe is called back exactly once for each prefix of the message that holds it |
| `Mtrie.SameLayout` | ExternalLib/libzmq/src/generic_mtrie_impl.hpp:75-139 | The layout of a trie is a function of its contents |
| `Mtrie.AddRm` | ExternalLib/libzmq/src/generic_mtrie_impl.hpp:142-151 | On the plain map, rm by key undoes add of a fresh entry |
| `Mtrie.AscendCount` | ExternalLib/libzmq/src/generic_mtrie_impl.hpp:551-555 | Walking a set of pipes in order meets every pipe once |
| `Mtrie.AscendSound` | ExternalLib/libzmq/src/generic_mtrie_impl.hpp:551-555 | and in strictly ascending address order |
| `Mtrie.CallBack` | ExternalLib/libzmq/src/generic_mtrie_impl.hpp:550-556 | The callbacks of one node are its pipes in ascending order |
| `Mtrie.MatchAlong` | ExternalLib/libzmq/src/generic_mtrie_impl.hpp:541-581 | The loop of match computes the callbacks of the plain map |
| `MtrieAdd.Add` | ExternalLib/libzmq/src/generic_mtrie_impl.hpp:67-151 | The loop of add on heap nodes: the result is again a canonical trie of separate nodes with the right contents |
| `MtrieAdd.Descend` | ExternalLib/libzmq/src/generic_mtrie_impl.hpp:72-140 | One step down keeps the trie spelled by the nodes, with the new child in place |
| `MtrieAdd.GrownMeaning` | ExternalLib/libzmq/src/generic_mtrie_impl.hpp:75-134 | Growing a table, and a new empty child, change no key |
| `MtrieAdd.AddMeaning` | ExternalLib/libzmq/src/generic_mtrie_impl.hpp:142-148 | Adding the pipe at the node reached changes its key and no other |
| `MtrieRmKey.RmKey` | ExternalLib/libzmq/src/generic_mtrie_impl.hpp:400-539 | The explicit stack removes one entry and releases redundant nodes upwards; new trie canonical, contents and result as on the plain map |
| `MtrieRmKey.Return` | ExternalLib/libzmq/src/generic_mtrie_impl.hpp:462-535 | Coming back to a node: a redundant child is dropped and the table compacted, the meaning stays |
| `MtrieRmKey.EmptiedMeaning` | ExternalLib/libzmq/src/generic_mtrie_impl.hpp:465-478 | Dropping a redundant child changes no key |
| `MtrieRmValue.RmValue` | ExternalLib/libzmq/src/generic_mtrie_impl.hpp:153-398 | The explicit-stack traversal terminates and equals the recursive removal, tree and callbacks |
| `MtrieRmValue.RmValueMeaning` | ExternalLib/libzmq/src/generic_mtrie_impl.hpp:153-398 | The recursive removal takes the pipe out of every key of the plain map and drops the keys left empty |
| `MtrieRmValue.Enter` | ExternalLib/libzmq/src/generic_mtrie_impl.hpp:182-256 | First visit: the pipe is erased, the callback key is exactly what the buffer holds, and the buffer is never written outside its size |
| `MtrieRmValue.Leave` | ExternalLib/libzmq/src/generic_mtrie_impl.hpp:257-398 | Revisit: a redundant child is pruned, the new minimum and maximum are kept, the table compacted after the last child |
| `MtrieRmValue.AheadDown` | ExternalLib/libzmq/src/generic_mtrie_impl.hpp:243-254 | Going down into a child leaves what is still to be removed and reported unchanged |
| `MtrieRmValue.AheadNext` | ExternalLib/libzmq/src/generic_mtrie_impl.hpp:309-319 | So does going on to the next child |
| `MtrieShape.CanonicalUnique` | ExternalLib/libzmq/src/generic_mtrie_impl.hpp:262-393 | Two canonical tries with the same contents have the same tables |
| `MtrieShape.RmMeaning` | ExternalLib/libzmq/src/generic_mtrie_impl.hpp:182-192 | The recursive removal gives every key its pipes without the removed one |
| `MtrieShape.RmCanonical` | ExternalLib/libzmq/src/generic_mtrie_impl.hpp:262-393 | It keeps the canonical form |
| `MtrieShape.TrimCanonical` | ExternalLib/libzmq/src/generic_mtrie_impl.hpp:326-393 | Cutting a table to its live range makes it canonical again |
| `MtrieShape.TrimMeaning` | ExternalLib/libzmq/src/generic_mtrie_impl.hpp:326-393 | and changes no key |
| `MtrieShape.CallsDue` | ExternalLib/libzmq/src/generic_mtrie_impl.hpp:184-187 | A key is reported if and only if it held the pipe (and nothing else, if asked so) |
| `MtrieShape.CallsAscending` | ExternalLib/libzmq/src/generic_mtrie_impl.hpp:226-256 | The reported keys are in strictly ascending lexicographic order |
| `MtrieShape.LessMeans` | ExternalLib/libzmq/src/generic_mtrie_impl.hpp:226-256 | That order: the keys agree up to a point where the lower one ends or has the lower character |
| `MtrieNode.GenericMtrie.Extend` | ExternalLib/libzmq/src/generic_mtrie_impl.hpp:75-115 | The four ways to grow: the old children keep their characters, the new character is covered, `_min + _count <= 256` |
| `MtrieNode.GenericMtrie.Child` | ExternalLib/libzmq/src/generic_mtrie_impl.hpp:117-139 | The child for a character, made if missing; `_live_nodes` stays the number of children |
| `MtrieNode.GenericMtrie.DropChild` | ExternalLib/libzmq/src/generic_mtrie_impl.hpp:465-533 | Without the child the table is cut to its live range: to a single child, from the left, from the right or not at all |
| `MtrieNode.GenericMtrie.Compact` | ExternalLib/libzmq/src/generic_mtrie_impl.hpp:326-393 | After a traversal the table is cut to its live range in one go |
| `MtrieNode.GenericMtrie.EraseValue` | ExternalLib/libzmq/src/generic_mtrie_impl.hpp:183-192 | A stored set is never left empty; the decision to call back |
| `MtrieNode.GenericMtrie.NextFor` | ExternalLib/libzmq/src/generic_mtrie_impl.hpp:441-451 | The child for a character, inline or in the table, or none |
| `MtrieNode.LiveCut` | ExternalLib/libzmq/src/generic_mtrie_impl.hpp:326-393 | Cutting away empty ends keeps the number of live children |
| `MtrieHeap.SpellsPlug` | ExternalLib/libzmq/src/generic_mtrie_impl.hpp:67-151 | Nodes spelled along a path and below it spell the whole trie |
| `MtrieZipper.PlugCanonical` | ExternalLib/libzmq/src/generic_mtrie_impl.hpp:262-393 | A canonical subtree in a canonical context is a canonical trie |
| `MtrieZipper.PlugGetOut` | ExternalLib/libzmq/src/generic_mtrie_impl.hpp:67-151 | A change below a path does not touch keys elsewhere |
| `PipeArray.Array.PushBack` | ExternalLib/libzmq/src/array.hpp:89-95 | Every item knows its position, before and after |
| `PipeArray.Array.Swap` | ExternalLib/libzmq/src/array.hpp:113-122 | Two items change places, and every item still knows its position |
| `PipeArray.Array.Erase` | ExternalLib/libzmq/src/array.hpp:97-111 | The last item takes the place of the erased one; the erased one keeps a stale index |
| `PipeArray.Array.Retire` | ExternalLib/libzmq/src/lb.cpp:60-68 | The pipe leaves the active ones, if it was one, and no other does; their order is that of one erasure; the current pipe stays current if and only if not (last among the active ones and the pipe between the first and it) |
| `PipeArray.Array.Demote` | ExternalLib/libzmq/src/lb.cpp:130-134 | The current pipe, and no other, leaves the active ones; the last active one takes its place and its turn |
| `PipeArray.RoundsTried` | ExternalLib/libzmq/src/lb.cpp:98-134 | After any number of failed tries, a pipe that was active still is or has been tried |
| `PipeArray.FirstWilling` | ExternalLib/libzmq/src/lb.cpp:98-151 | A current pipe with room takes the part, and nobody leaves |
| `PipeArray.Pipe.Rollback` | ExternalLib/libzmq/src/pipe.cpp:263-274 | Exactly what was not flushed is taken back; every part taken back says more |
| `Dist.Dist.Run` | ExternalLib/libzmq/src/dist.cpp:47-237 | Over every run of attach, termination, activation, matching between messages and multipart sends with any writes failing: the array with its cursors does, event by event, what the machine of four sets of pipes does, every part is on exactly the pipes that then match, and after every event the parts of each message on every pipe form a prefix of it; left out is the activation that displaces a matching pipe in the middle of a message, for which Activate has the exact condition |
| `Dist.Dist.Attach` | ExternalLib/libzmq/src/dist.cpp:47-62 | The pipe joins the active ones or, in the middle of a message, the eligible ones; prefixes stay |
| `Dist.Dist.HasPipe` | ExternalLib/libzmq/src/dist.cpp:64-74 | Exact membership, also for stale indices |
| `Dist.Dist.Match` | ExternalLib/libzmq/src/dist.cpp:76-89 | Keeps the cursors in order unless the pipe is eligible and inactive |
| `Dist.Dist.ReverseMatch` | ExternalLib/libzmq/src/dist.cpp:91-105 | The loop with overlapping swap ranges gives the reversed split; the cursors stay in order and the active pipes the same if and only if all eligible pipes are active |
| `Dist.Dist.Unmatch` | ExternalLib/libzmq/src/dist.cpp:107-110 | No pipe matches; prefixes stay |
| `Dist.Dist.PipeTerminated` | ExternalLib/libzmq/src/dist.cpp:112-130 | Only the terminated pipe leaves its classes and the array; prefixes stay |
| `Dist.Dist.Activate` | ExternalLib/libzmq/src/dist.cpp:132-146 | For every attached pipe: prefixes stay if and only if not (mid-message, the pipe matches, and some pipe is passive) |
| `Dist.PrefixesIff` | ExternalLib/libzmq/src/dist.cpp:171-216 | A part extends the prefixes on a pipe if and only if the pipe has the part before it |
| `Dist.Displaced` | ExternalLib/libzmq/src/dist.cpp:132-146 | A run: a pipe activated while it matches loses its place to a passive one, which then gets the second part of a message without the first |
| `Dist.Dist.Write` | ExternalLib/libzmq/src/dist.cpp:223-237 | Success appends and, at the end of a message, flushes; failure moves only that pipe out of all classes |
| `Dist.Dist.WriteAll` | ExternalLib/libzmq/src/dist.cpp:199-208 | Each matching pipe is tried exactly once although failures permute the array; terminates |
| `Dist.Dist.Distribute` | ExternalLib/libzmq/src/dist.cpp:171-216 | The content is then held by the other holders and one copy per successful write, and freed, once, if that is nobody; the pipes still matching got the part and no other did; of the pipes tried, none with room was passed over |
| `Dist.Dist.SendToMatching` | ExternalLib/libzmq/src/dist.cpp:154-169 | One part further: the pipes that failed leave every class, and after the last part all eligible pipes are active |
| `Dist.Dist.SendToAll` | ExternalLib/libzmq/src/dist.cpp:148-152 | All active pipes are tried and only they get the part; the eligible pipes lose exactly those that failed, and after the last part they are all active; prefixes stay if a message under way was going to all of them |
| `Dist.Dist.LateJoin` | ExternalLib/libzmq/src/dist.cpp:47-62 | A pipe with room attached in the middle of a message is passed by to the end of it, and gets the next message sent to all |
| `Partition.EndedSets` | ExternalLib/libzmq/src/dist.cpp:154-169 | What a part sent does to every class: with more to come the failed pipes leave, after the last part the active pipes are the eligible ones |
| `Partition.ReversedSets` | ExternalLib/libzmq/src/dist.cpp:91-105 | reverse_match makes exactly the eligible pipes match that did not; between messages no other class changes |
| `Partition.ReversedIff` | ExternalLib/libzmq/src/dist.cpp:91-105 | It keeps the cursors in order and the active set if and only if all eligible pipes are active |
| `Partition.ReversedTwice` | ExternalLib/libzmq/src/dist.cpp:91-105 | Twice gives back the original matching set |
| `Partition.MatchedSets` | ExternalLib/libzmq/src/dist.cpp:76-89 | match of an active pipe adds it to the matching ones and changes no other class |
| `Partition.MatchedIff` | ExternalLib/libzmq/src/dist.cpp:79-88 | match keeps the active set if and only if the pipe is not eligible and inactive |
| `Partition.MatchedPushesOut` | ExternalLib/libzmq/src/dist.cpp:79-88 | Such a call: an active pipe is pushed out |
| `Partition.AttachedSets` | ExternalLib/libzmq/src/dist.cpp:47-62 | attach changes the class of the new pipe only |
| `Partition.TerminatedSets` | ExternalLib/libzmq/src/dist.cpp:112-130 | pipe_terminated changes the classes of that pipe only |
| `Partition.ActivatedSets` | ExternalLib/libzmq/src/dist.cpp:132-146 | For every pipe, with some pipe passive: which pipe joins the eligible ones, and what that does to every class |
| `Partition.ActivatedIff` | ExternalLib/libzmq/src/dist.cpp:134-138 | activated changes the classes of the named pipe only, and makes it eligible, if and only if it is passive or none is |
| `Partition.ActivatedDisplaces` | ExternalLib/libzmq/src/dist.cpp:134-138 | Such a call: a passive pipe takes the place of a matching one |
| `Partition.PassiveSets` | ExternalLib/libzmq/src/dist.cpp:225-233 | A failed write changes the classes of that pipe only |
| `Partition.RestStep` | ExternalLib/libzmq/src/dist.cpp:201-208 | A failed write takes the pipe at the loop index out and leaves those before it in place |
| `Message.Msg.InitSize` | ExternalLib/libzmq/src/msg.cpp:89-122 | A long message is the only handle on a new content |
| `Message.Msg.InitData` | ExternalLib/libzmq/src/msg.cpp:164-204 | With a free function the handle is the only one on a new content, without one it is a constant message |
| `Message.Msg.InitExternalStorage` | ExternalLib/libzmq/src/msg.cpp:138-162 | The handle is the only one on the given content |
| `Message.Msg.Close` | ExternalLib/libzmq/src/msg.cpp:269-330 | One handle fewer on the content; the last one frees it, once; closing twice fails |
| `Message.Msg.AddRefs` | ExternalLib/libzmq/src/msg.cpp:588-609 | So many more handles may be made; the handle is then marked shared, and nothing else about it changes |
| `Message.Msg.RmRefs` | ExternalLib/libzmq/src/msg.cpp:611-653 | So many fewer; true while some are left, and freed once when none is; an unshared handle is closed instead |
| `MessagePool.Pool.Run` | ExternalLib/libzmq/src/msg.cpp:89-389 | Over any run of init, copy, move and close on distinct handles, and after every operation: an unshared handle is alone on its content, a shared counter is the number of handles, a content is freed exactly when its last handle has gone, and once; each operation does to the handles what it says |
| `MessagePool.Pool.Copy` | ExternalLib/libzmq/src/msg.cpp:353-389 | Both handles are on the content, counted; the destination is closed first |
| `MessagePool.Pool.Move` | ExternalLib/libzmq/src/msg.cpp:332-351 | The destination has what the source had, the source is empty |
| `MessagePool.Pool.Close` | ExternalLib/libzmq/src/msg.cpp:269-330 | The books stay balanced |
| `MessagePool.Closing` | ExternalLib/libzmq/src/msg.cpp:269-330 | Closing one handle keeps the books of all contents balanced |
| `MessagePool.Sharing` | ExternalLib/libzmq/src/msg.cpp:353-389 | So does copying: from unshared to a count of two, or one more |
| `MessagePool.Moving` | ExternalLib/libzmq/src/msg.cpp:332-351 | So does moving |
| `MessagePool.AllClosed` | ExternalLib/libzmq/src/msg.cpp:269-330 | When all handles are closed every content has been freed exactly once |
| `Lb.Lb.Run` | ExternalLib/libzmq/src/lb.cpp:45-180 | Over any run, and after every event: what a pipe has flushed is whole messages, no message is on two pipes, and every message but the one under way is flushed whole or lost with no part flushed; lost stays lost; each event does what the machine of active pipes in turn and books says; left out are the terminations and activations for which PipeTerminated and Activated have the exact conditions |
| `Lb.Lb.SendPipe` | ExternalLib/libzmq/src/lb.cpp:83-158 | 0, -1 and -2 and what each means for every pipe and for the message; the active pipes were tried in turn, those that left have failed, the receiver is the first that did not, and -1 means that no active pipe had room |
| `Lb.Lb.Choose` | ExternalLib/libzmq/src/lb.cpp:98-151 | The loop over active pipes in their turn; exactly the pipes that failed leave the active ones |
| `Lb.Lb.Put` | ExternalLib/libzmq/src/lb.cpp:99-151 | A part on the current pipe; the last one flushes and moves on |
| `Lb.Lb.Abort` | ExternalLib/libzmq/src/lb.cpp:105-128 | What the failing pipe has of the message is taken back, and the rest will be dropped up to the last part |
| `Lb.Lb.Drop` | ExternalLib/libzmq/src/lb.cpp:85-96 | A part of a lost message is closed; dropping ends with the last part |
| `Lb.Lb.PipeTerminated` | ExternalLib/libzmq/src/lb.cpp:51-69 | The active pipes lose this one and no other; if the busy pipe goes the message is lost; the current pipe stays the one with the message, and with it the books, if and only if not (mid-message, current pipe last among the active, and another active pipe between the first and it goes) |
| `Lb.Lb.Tear` | ExternalLib/libzmq/src/lb.cpp:62-151 | In that case the next write of the last part, to the pipe that is then current, goes to the first pipe, and what that has flushed is not whole messages |
| `Lb.Misplaced` | ExternalLib/libzmq/src/lb.cpp:143-151 | Whole messages followed by a part that is not the first of its message are never whole, whatever follows |
| `Lb.TornLast` | ExternalLib/libzmq/src/lb.cpp:143-151 | So a last part on a pipe without the parts before it tears the message |
| `Lb.Lb.Torn` | ExternalLib/libzmq/src/lb.cpp:51-151 | That happens, in a run of attach, sends and a termination |
| `Lb.Lb.Attach` | ExternalLib/libzmq/src/lb.cpp:45-49 | The new pipe is active; all else stays |
| `Lb.Lb.Activated` | ExternalLib/libzmq/src/lb.cpp:71-76 | For every attached pipe: the swap is in range if and only if some pipe is not active; the named pipe is the one that becomes active if and only if it was not; whole messages stay whole if and only if it is not in the middle of one |
| `Lb.Lb.Stuck` | ExternalLib/libzmq/src/lb.cpp:105-127 | A run: a pipe fails in the middle of a message (-2), stays active, and its activation reaches beyond the array |
| `Lb.Lb.HasOut` | ExternalLib/libzmq/src/lb.cpp:160-180 | True exactly if a part can be tried; the active pipes are asked in turn up to the first with room, and exactly those without leave |
| `Lb.PutLast` | ExternalLib/libzmq/src/lb.cpp:143-151 | The last part keeps the books: the message is delivered |
| `Lb.PutMore` | ExternalLib/libzmq/src/lb.cpp:143-146 | So does any other part |
| `Lb.Aborting` | ExternalLib/libzmq/src/lb.cpp:108-127 | So does giving a message up |
| `Lb.BooksBalance` | ExternalLib/libzmq/src/lb.cpp:83-158 | What the books say: all or nothing, on one pipe |
| `Fq.Fq.Run` | ExternalLib/libzmq/src/fq.cpp:45-145 | Over any run of attach, activation, termination, arrivals, receives and polls, and after every event, the parts of each message come from one pipe; each event does what the machine of active pipes in turn and queues says; left out are the terminations and activations for which PipeTerminated and Activated have the exact conditions |
| `Fq.Conserved` | ExternalLib/libzmq/src/fq.cpp:45-145 | Over any such run and for every pipe, what was read from it and what still waits in it is what waited at first and what arrived: nothing lost, made up or reordered |
| `Fq.Fq.Wait` | ExternalLib/libzmq/src/fq.cpp:79-145 | An active pipe with a message waiting is read after at most `_active - 1` whole messages from others, while pipes run empty, polls and arrivals happen; no receive fails meanwhile; until then its queue only grows, by what arrives |
| `Fq.Fq.RecvPipe` | ExternalLib/libzmq/src/fq.cpp:79-121 | A part from the first active pipe in turn that has one, in order, or -1 when every active pipe was empty; exactly the empty ones met leave; parts of a message come from one pipe; other waiting pipes come nearer |
| `Fq.Fq.Fetch` | ExternalLib/libzmq/src/fq.cpp:85-113 | The loop over active pipes in their turn; the rest of a message never has to be waited for |
| `Fq.Fq.Take` | ExternalLib/libzmq/src/fq.cpp:89-102 | After a whole message every other pipe is one nearer |
| `Fq.Fq.Deactivate` | ExternalLib/libzmq/src/fq.cpp:109-112 | Swapping an empty pipe out makes no other pipe wait longer |
| `Fq.Fq.HasIn` | ExternalLib/libzmq/src/fq.cpp:123-145 | True exactly if an active pipe has something, and then that pipe is the next to be read; exactly the empty ones met leave; no pipe waits longer |
| `Fq.Fq.PipeTerminated` | ExternalLib/libzmq/src/fq.cpp:52-65 | The active pipes lose this one and no other; the message under way stays on its pipe if and only if not (mid-message, and the current pipe goes or it is the last active one and another between goes) |
| `Fq.Fq.AfterTear` | ExternalLib/libzmq/src/fq.cpp:86-107 | Otherwise the next receive takes a part of another pipe for the next of the message, or trips the assert, or there is no pipe left: which of them, by the number of active pipes and what waits |
| `Fq.Fq.Torn` | ExternalLib/libzmq/src/fq.cpp:52-107 | A run in which the message is mixed |
| `Fq.Fq.Attach` | ExternalLib/libzmq/src/fq.cpp:45-50 | The new pipe is active; all else stays |
| `Fq.Fq.Activated` | ExternalLib/libzmq/src/fq.cpp:67-72 | For every attached pipe: in range if and only if some pipe is not active; the named pipe becomes active and no other if and only if it was not; the message under way stays on its pipe if and only if that is not the named one |
| `Fq.SkippedStep` | ExternalLib/libzmq/src/fq.cpp:94-102 | Counting whole messages from other pipes, part by part |
| `Allocator.AlwaysSafe` | ExternalLib/libzmq/src/decoder_allocators.cpp:55-141 | In every interleaving: a buffer with messages or being filled is neither freed nor claimed by anyone, and none is freed twice |
| `Allocator.NotInUse` | ExternalLib/libzmq/src/decoder_allocators.cpp:60-141 | Reuse and free happen only when no message points into the buffer and the decoder does not fill it |
| `Allocator.AllFreed` | ExternalLib/libzmq/src/decoder_allocators.cpp:99-141 | After destruction, with all messages closed, every buffer was freed exactly once |
| `Allocator.AlwaysGood` | ExternalLib/libzmq/src/decoder_allocators.cpp:60-141 | The counter is the number of owners in every reachable state |
| `Allocator.GoodCellStep` | ExternalLib/libzmq/src/decoder_allocators.cpp:60-141 | Every atomic step keeps the counter right for every buffer |
| `Allocator.ContentsFit` | ExternalLib/libzmq/src/decoder_allocators.cpp:35-43 | There is a free content slot for every message built in the buffer, whatever gaps lie between the messages |
| `Allocator.AlwaysPlaced` | ExternalLib/libzmq/src/v2_decoder.cpp:123-138 | In every state of every interleaving, two messages of one buffer have different contents and disjoint bytes, all within the buffer |
| `Allocator.PlacedStep` | ExternalLib/libzmq/src/decoder_allocators.cpp:60-141 | Every atomic step keeps that, reuse of a buffer included |
| `Allocator.SharedMessageMemoryAllocator.Allocate` | ExternalLib/libzmq/src/decoder_allocators.cpp:60-97 | The decoder then has a live buffer with a count of one into which no message points, whatever other threads close meanwhile: the old one if and only if no message pointed into it, else a new one |
| `Allocator.SharedMessageMemoryAllocator.Deallocate` | ExternalLib/libzmq/src/decoder_allocators.cpp:99-107 | The decoder has no buffer; it is freed if no message points into it; the run goes on being safe |
| `Allocator.SharedMessageMemoryAllocator.MakeMessage` | ExternalLib/libzmq/src/v2_decoder.cpp:123-138 | The message has the next content and its bytes to itself, in the live buffer, and is counted; the places of the others stay, and the next message gets the content behind |
| `Decoder.Decoder.Receive` | ExternalLib/libzmq/src/stream_engine_base.cpp:275-312 | Whatever the pieces and the buffer size, copying or zero-copy: messages, error, final state and bytes used are those of the machine fed byte by byte |
| `Decoder.Decoder.Decode` | ExternalLib/libzmq/src/decoder.hpp:97-145 | One call uses all bytes, or stops behind a message with the rest still to come, or fails at that byte |
| `Decoder.Decoder.Steps` | ExternalLib/libzmq/src/decoder.hpp:112-117 | The inner loop runs zero-length steps to their end |
| `Decoder.FeedConcat` | ExternalLib/libzmq/src/decoder.hpp:97-145 | How a stream is cut does not matter, and every byte is used once |
| `Decoder.FeedBulk` | ExternalLib/libzmq/src/decoder.hpp:121-142 | Copying as much as is wanted equals byte by byte |
| `Encoder.Encoder.SendAll` | ExternalLib/libzmq/src/encoder.hpp:74-134 | Any sizes of buffers: the output is the concatenation of the chunks, each message closed once |
| `Encoder.Encoder.Send` | ExternalLib/libzmq/src/encoder.hpp:74-134 | The same for one message, closed after its last byte |
| `Encoder.Encoder.Encode` | ExternalLib/libzmq/src/encoder.hpp:74-134 | One call gives out the next bytes, and loses none; it fills the buffer, or closes the message when that leaves room; only the encoder's own buffer is exceeded, and by one chunk |
| `Encoder.Encoder.LoadMsg` | ExternalLib/libzmq/src/encoder.hpp:129-134 | All chunks of the message are then pending |
| `V2.Transmit` | ExternalLib/libzmq/src/v2_encoder.cpp:50-96 | Messages through encoder and decoder, any buffer sizes on both sides: each arrives as its body, behind a one for a subscription and a zero for a cancellation, if and only if none is over the limit and none is a subscription or cancellation of 255 bytes |
| `V2.RoundTrip` | ExternalLib/libzmq/src/v2_decoder.cpp:62-167 | The same of the byte streams |
| `V2.FeedMessage` | ExternalLib/libzmq/src/v2_encoder.cpp:50-96 | A faithful message is decoded as its frame, and decoding goes on behind it |
| `V2.FeedBad` | ExternalLib/libzmq/src/v2_encoder.cpp:57-71 | Any other message is not |
| `V2.LostSubscription` | ExternalLib/libzmq/src/v2_encoder.cpp:59-71 | Such a message |
| `V2.FeedFrame` | ExternalLib/libzmq/src/v2_decoder.cpp:62-167 | Flags, size and body of a frame, empty and oversized ones included |
| `V2.SmallHeaders` | ExternalLib/libzmq/src/v2_encoder.cpp:50-96 | The bytes of a subscription, a cancellation, a last and a further part, and a command |
| `V2.LargeHeader` | ExternalLib/libzmq/src/v2_encoder.cpp:66-78 | The bytes in front of a body of 256 to 511 |
| `Wire.GetPut` | ExternalLib/libzmq/src/wire.hpp:62-100 | Reading an integer in network order gives what was written |
| `Wire.PutGet` | ExternalLib/libzmq/src/wire.hpp:62-100 | and the other way round |
| `Wire.PutAt` | ExternalLib/libzmq/src/wire.hpp:62-88 | Each byte is the value shifted and masked |
| `Wire.PutUint32` | ExternalLib/libzmq/src/wire.hpp:62-68 | Four bytes of the buffer change, to the value in network order |
| `Multipart.Encode` | ExternalLib/cppzmq/include/zmq_addon.hpp:220-258 | Range error exactly if a part is too large; else the buffer is filled exactly with the encoding |
| `Multipart.EncodedSize` | ExternalLib/cppzmq/include/zmq_addon.hpp:222-234 | The first pass counts exactly the bytes of the encoding |
| `Multipart.Decode` | ExternalLib/cppzmq/include/zmq_addon.hpp:275-302 | The loop computes the parts, or throws |
| `Multipart.Accepted` | ExternalLib/cppzmq/include/zmq_addon.hpp:275-302 | Decoding gives these parts if and only if the input is a tiling by them; otherwise it throws |
| `Multipart.DecodeTiles` | ExternalLib/cppzmq/include/zmq_addon.hpp:280-298 | Every tiling is decoded, whichever sizes are long |
| `Multipart.TilesDecoded` | ExternalLib/cppzmq/include/zmq_addon.hpp:280-300 | What is decoded tiles the whole input |
| `Multipart.RoundTrip` | ExternalLib/cppzmq/include/zmq_addon.hpp:220-302 | decode(encode(parts)) == parts |
| `Multipart.SizesWritten` | ExternalLib/cppzmq/include/zmq_addon.hpp:236-256 | A part of up to 254 bytes has a size of one byte, one of 255 bytes the marker and four |
| `Multipart.Reencoded` | ExternalLib/cppzmq/include/zmq_addon.hpp:243-254 | Encoding what was decoded is never longer; of equal length, and then equal, if and only if every long size is at least 255 |
| `Multipart.Reflect` | ExternalLib/cppzmq/include/zmq_addon.hpp:220-302 | The round trip through the buffers |
| `Metadata.AddBasicProperties` | ExternalLib/libzmq/src/mechanism.cpp:168-197 | Never beyond the capacity; exactly the bytes of the announced properties, and nothing else changes |
| `Metadata.BasicPropertiesLen` | ExternalLib/libzmq/src/mechanism.cpp:199-218 | Exactly the length of those bytes |
| `Metadata.AddProperty` | ExternalLib/libzmq/src/mechanism.cpp:138-158 | One property in its place |
| `Metadata.MakeCommand` | ExternalLib/libzmq/src/mechanism.cpp:220-235 | Prefix and properties, filled exactly |
| `Metadata.Mechanism.ParseMetadata` | ExternalLib/libzmq/src/mechanism.cpp:237-290 | The loop: what is taken in, into one of the two maps only, and the three results |
| `Metadata.ParseSerialised` | ExternalLib/libzmq/src/mechanism.cpp:237-290 | Serialised properties, alone or with one more cut off behind its name or length, are accepted as those properties |
| `Metadata.SerialisedParse` | ExternalLib/libzmq/src/mechanism.cpp:254-261 | and nothing else is |
| `Metadata.CutOffAccepted` | ExternalLib/libzmq/src/mechanism.cpp:254-261 | Two such inputs |
| `Metadata.TakeStatus` | ExternalLib/libzmq/src/mechanism.cpp:267-289 | Success exactly if the list is clean and all socket types suit; refusal exactly if one does not |
| `Metadata.TakeAll` | ExternalLib/libzmq/src/mechanism.cpp:267-283 | Of the properties up to the first refused one, the first value of each name is kept; a routing id that is to be received is the last identity, and else stays |
| `Metadata.IdentityAnnounced` | ExternalLib/libzmq/src/mechanism.cpp:178-184 | The routing id is announced by REQ, DEALER and ROUTER sockets, as the only identity, and by no other |
| `Metadata.CStrPrefix` | ExternalLib/libzmq/src/mechanism.cpp:187-194 | An application property goes up to its first zero |
| `Metadata.DealerAnnounces` | ExternalLib/libzmq/src/mechanism.cpp:168-197 | The bytes of what a DEALER announces |
| `Metadata.ShortTypesSpelled` | ExternalLib/libzmq/src/mechanism.cpp:76-121 | The names of five socket types on the wire |
| `Metadata.LongTypesSpelled` | ExternalLib/libzmq/src/mechanism.cpp:76-121 | and of the other seven |
| `Metadata.Handshake` | ExternalLib/libzmq/src/mechanism.cpp:220-290 | What one side announces the other takes in, or refuses it and takes nothing in: with the application keys that can be set, exactly as the two socket types suit each other, and then it has the routing id of the other, if that has one and it is wanted |
| `Metadata.AllWelcome` | ExternalLib/libzmq/src/mechanism.cpp:168-197 | All announced properties are welcome if and only if the socket types suit |
| `Metadata.HandshakeSymmetric` | ExternalLib/libzmq/src/mechanism.cpp:310-345 | Both ends decide alike |
| `Ctx.Ctx.Run` | ExternalLib/libzmq/src/ctx.cpp:156-256 | Any run of creation, inproc connects and binds, destruction, shutdown and interrupted terminate: each event does what the machine of slots, pending connections and counts says; after every event no two sockets share a slot and the reaper has been told to stop exactly when terminating with no sockets, and once; it ends early exactly when terminate cannot make its sockets |
| `Ctx.Ctx.Start` | ExternalLib/libzmq/src/ctx.cpp:413-483 | Succeeds exactly if all threads can be made: fixed slots for term, reaper and I/O threads, the others empty; on failure no slot, but the I/O threads made so far stay listed and the next start adds to them |
| `Ctx.Ctx.CreateSocket` | ExternalLib/libzmq/src/ctx.cpp:485-524 | The socket gets the last empty slot, exactly if not terminating, threads and socket can be made and a slot is left |
| `Ctx.Ctx.DestroySocket` | ExternalLib/libzmq/src/ctx.cpp:526-542 | Of a socket that has had all its commands: the slot is empty again; the last one while terminating stops the reaper |
| `Ctx.Ctx.Shutdown` | ExternalLib/libzmq/src/ctx.cpp:235-256 | Sockets are told to stop once, the reaper if there are none |
| `Ctx.Ctx.Terminate` | ExternalLib/libzmq/src/ctx.cpp:156-204 | With any inproc connections pending, and terminating or not before: a socket is made for each and all are bound, exactly if there is room for the sockets (else the assert trips); the sockets are told to stop unless terminating before, and the reaper exactly once |
| `Ctx.Ctx.Pend` | ExternalLib/libzmq/src/ctx.cpp:766-786 | A pending connection is kept, and its socket is owed one more command |
| `Ctx.Ctx.Bind` | ExternalLib/libzmq/src/ctx.cpp:788-802 | Exactly the connections to the address are no longer pending, and each of their sockets is sent one command |
| `Ctx.Ctx.StillThere` | ExternalLib/libzmq/src/own.cpp:192-196 | A pending connection keeps its socket: it lacks a command, so it cannot be destroyed |
| `Ctx.Ctx.Disjoint` | ExternalLib/libzmq/src/ctx.cpp:466-524 | Empty slots and sockets' slots are disjoint and together are the range |
| `Ctx.Ctx.FillEmptySlots` | ExternalLib/libzmq/src/ctx.cpp:466-470 | All slots behind the fixed ones |

## Left out

- ComuFrame itself: a state enum, linear scans and socket, thread and file handling would only add easy members, and the search in ComuFrame/DataBase.cpp does not compute the cover it means to.
- Nodes, tables and sets that the trie frees: a node that is deleted leaves the shape and is never reached again; the call of `delete` itself, and the destructor, are not modelled. The table of a node is a sequence, not a block from malloc.
- Long groups and metadata of messages: messages carry neither; `add_refs` and `rm_refs` demand the latter of their callers.
- The payload of messages in the distributor, the load balancer and the fair queue: a part is its handle, not its bytes.
- High-water marks and the lock-free queue inside a pipe.
- Dist.Dist.Run: `match` and `reverse_match` between messages only; no activation of a matching pipe in the middle of a message while another pipe is passive (`Activate` covers it and shows that it breaks the prefixes); a message that has begun to go to some pipes is not then sent to all; parts are small messages there (the counting of shared ones is in `Distribute`).
- Lb.Lb.Run: skips a termination that would tear the message under way, an activation when all pipes are active (the source then reaches beyond its array) and one of the pipe in the middle of a message (pipe.cpp:299 never sends it); `PipeTerminated` and `Activated` cover all of these. A pipe is attached with nothing unflushed.
- Fq.Fq.Wait: no attach, activation or termination while it waits.
- Decoder: the memory the bytes are copied to is the sequence of bytes read since the last step; that in-place messages share the receive buffer is the subject of `Allocator`. An engine that pauses because the session is full is not modelled.
- Encoder: the message in progress is a value, and its closing a count; what closing does is in `Message`.
- V2: sizes are 64 bits wide on the receiving side too, so the check that a size fits size_t never fails. The 3.1 encoder and the version 1 codec are not modelled.
- Metadata: the draft socket types, and the checks of single properties that mechanisms may override (the default accepts all).
- Ctx: socket types, options, the table of bound endpoints (whether a connect finds its address bound is up to the run), other commands a socket may wait for, and the reaper's own count of the sockets it has, by which it says that it is done.
- CURVE, GSSAPI, mailboxes, pollers, addresses and the wrappers of zmq.hpp.
