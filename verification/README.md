# Verified models of c_learn

This project models the algorithmic core of the `c_learn` repository in Dafny 4.11 and proves what that code is
for.  `dafny verify dfyconfig.toml` checks it.

| part | source | files |
|---|---|---|
| KCP, a reliable transport over datagrams | kcp_learn/ikcp.c | Word, KcpWire, KcpSpec, KcpShape, KcpInvariant, KcpDirection, KcpMessages, KcpCalls, KcpFlushed, KcpArrived, KcpSystem, KcpProgress, KcpTimer, KcpWrap, KcpEndpoint |
| the ordered map, a red-black tree | cc_learn/cc.h | RbTree, RbShape, RbFix, RbOrder, RbCopy, OrderedMap |
| the unordered map, an open-addressing hash table with linked chains | cc_learn/cc.h | HashProbe, HashChain, HashWord, HashFill, HashJam, HashMap, HashStranded |
| a compare-and-swap spin lock around a counter | gcc_learn/__atomic_compare_exchange_n.c | SpinLock |
| SHA-256, DES, Blowfish, AES with CBC and CTR, Base64 | crypto-algorithms_learn | Sha256, Feistel, DesPermutation, Des, Blowfish, AesTables, AesMix, AesRounds, Aes, BlockModes, CounterBlock, AesModes, Base64, Base64Decode |

Option, Powers, Sequences and Visit hold what several parts share.

## How the code is modelled

- **KCP.**  `KcpEndpoint.Endpoint` is the control block, updated in place; each method is proved against a function
  of `KcpSpec` on the value of the control block.  `KcpSystem` runs two such values over a network that holds every
  datagram ever sent and delivers any of them at any time, any number of times or never.  `KcpFlushed` and `KcpArrived`
  say what one flush and one datagram do, by position and without these functions; `KcpProgress` puts both together.  Numbers and times are
  32-bit words that wrap.  Windows and MTU are chosen before the first call, and the runs of `DeliveredInOrder` and
  `NothingForgotten` take fewer than 2^31 fragments; `KcpWrap` says why, and exactly when the comparison fails.
- **Ordered map.**  `OrderedMap.OMap` keeps nodes in explicit memory: a pointer is a number, and maps from pointers
  to headers, keys and elements are written where the source writes through pointers.  A ghost tree with a focus
  (`RbTree.Ctx`) says what lies in memory.  The comparison function is any total order.  Allocation, and whether the
  handle is still a placeholder, are parameters.
- **Unordered map.**  `HashMap.Table` keeps metadata, keys and elements in sequences that are updated as the source
  updates its arrays.  A metadatum is a record; `HashWord` and `Table.Words` relate it to the 16-bit word and to the
  mask expressions of the source.  `& cap_mask` is the remainder modulo a power of two.  The hash function is any
  function, the maximum load any real number, and memory is a finite set of bucket counts that can be allocated.
  `HashJam` says what it means that a bucket count is too small: *jammed* if some of the keys, stored in that many
  buckets, leave another no place within the displacement limit, and *cramped* if it is jammed or the keys exceed
  the maximum load.
- **Spin lock.**  A state machine over the program counters of any number of threads, one step at a time.  The shared
  flag `cond` takes the value of the comparison in the loop head and is not read again, so the step takes the value of
  the comparison itself and the flag is not part of the state.
- **Ciphers.**  The round functions of DES and Blowfish, the compression function of SHA-256 and the expanded keys are
  parameters: what is proved holds for all of them.  The tables, permutations and column mixing are those of the
  source, bit by bit.

Where comments and code disagree the model follows the code.


## Model

| member | source | states |
|---|---|---|
| `KcpSystem.DeliveredInOrder` | kcp_learn/ikcp.c:360-553 | over every run of two endpoints and a network that loses, duplicates and reorders datagrams, the messages returned by `ikcp_recv` are a prefix, in order and exactly once, of those accepted by the peer's `ikcp_send` in message mode; in either mode the bytes are |
| `KcpSystem.NothingForgotten` | kcp_learn/ikcp.c:588-625 | in every reachable state each number below `snd_nxt` is still in `snd_buf`, or below the peer's `rcv_nxt`, or in the peer's `rcv_buf` |
| `KcpSystem.RunInvariant` | kcp_learn/ikcp.c:768-926 | both directions keep numbers, segments, acknowledgements, bytes and messages consistent in every reachable state |
| `KcpProgress.Progress` | kcp_learn/ikcp.c:768-1165 | after any run: a flush, its datagram, the peer's flush and its datagram, if none is lost, leave each segment that was due, and that the peer's window allows, received by the peer and released by the sender |
| `KcpProgress.RoundTrip` | kcp_learn/ikcp.c:768-1165 | the same in either direction, from any state that satisfies the invariant |
| `KcpProgress.FreshMessage` | kcp_learn/ikcp.c:1172-1198 | a short message given to a new endpoint is sent by its first update; under congestion control by its second flush |
| `KcpFlushed.FlushNumbers` | kcp_learn/ikcp.c:1041-1069 | a flush numbers, in order, exactly as many waiting fragments as the least window allows |
| `KcpFlushed.FlushSends` | kcp_learn/ikcp.c:1075-1135 | a segment of `snd_buf` is written if and only if it is new, was never sent, timed out or was skipped often enough; each once, in order, with its contents and the present time, window and `una`; and no other data is |
| `KcpFlushed.FlushAnswers` | kcp_learn/ikcp.c:982-994 | each pending acknowledgement is written exactly once, in order, with its number and time; and the list is emptied |
| `KcpFlushed.FlushProbes` | kcp_learn/ikcp.c:996-1039 | the window is asked for and told exactly when due, and when the probe is due again |
| `KcpFlushed.FlushReschedules` | kcp_learn/ikcp.c:1079-1114 | what is sent is counted and scheduled for the present time and its timeout, which grows by the back-off; the rest is left alone |
| `KcpFlushed.FlushRegulates` | kcp_learn/ikcp.c:1143-1164 | timeouts are counted; one of them closes the window to one segment and halves the threshold, a fast retransmission halves the flight, otherwise the window stays |
| `KcpFlushed.FlushDies` | kcp_learn/ikcp.c:1131-1133 | the connection is given up exactly when a segment that is sent has been sent too often |
| `KcpArrived.InputReleases` | kcp_learn/ikcp.c:811-821 | a segment stays in `snd_buf` if and only if nothing in the datagram acknowledges its number, singly or below a `una`; nothing but its count of skips changes |
| `KcpArrived.InputDrops` | kcp_learn/ikcp.c:588-625 | after input no acknowledged number is in `snd_buf` |
| `KcpArrived.InputPasses` | kcp_learn/ikcp.c:894-896 | exactly the segments sent before the highest acknowledgement of the datagram are counted as skipped, once |
| `KcpArrived.MaxAck` | kcp_learn/ikcp.c:822-838 | which acknowledgement is the highest |
| `KcpArrived.InputTakes` | kcp_learn/ikcp.c:846-871 | exactly the data inside the window whose number is not held is taken in, nothing is lost, and the queue grows by as many as `rcv_nxt` moves |
| `KcpArrived.InputAnswers` | kcp_learn/ikcp.c:852-853 | the list of acknowledgements grows by number and time of each data segment below the end of the window, when its turn comes, in order |
| `KcpArrived.InputTells` | kcp_learn/ikcp.c:811-926 | the last segment tells the window, a question will be answered, and the congestion window grows exactly if the first number out moved |
| `KcpArrived.InputMeasures` | kcp_learn/ikcp.c:558-575 | an acknowledgement moves the estimate an eighth of the way to the time measured, unless that lies ahead of the clock; the timeout covers estimate and deviation within its bounds |
| `KcpArrived.RecvReturns` | kcp_learn/ikcp.c:360-439 | `ikcp_recv` returns the bytes of the first message and their number; what is taken, what is let in, and each code |
| `KcpMessages.SendTakes` | kcp_learn/ikcp.c:475-553 | `ikcp_send` accepts exactly up to 127 fragments, cut full and numbered down behind what is waiting, after filling up the last one in stream mode |
| `KcpMessages.FirstMessage` | kcp_learn/ikcp.c:444-470 | the receive queue starts with the next undelivered message of the peer; `ikcp_peeksize` is negative exactly while its fragments are incomplete, and otherwise is its length |
| `KcpMessages.CountedJoins` | kcp_learn/ikcp.c:519-550 | joined, the fragments that `ikcp_send` makes are the message |
| `KcpSpec.FragCountCovers` | kcp_learn/ikcp.c:519-528 | the number of fragments is at least one, covers the message, and one less would not |
| `KcpCalls.InputSender` | kcp_learn/ikcp.c:811-821 | acknowledgements of what the peer really got never make the sender drop anything else |
| `KcpCalls.InputReceiver` | kcp_learn/ikcp.c:846-871 | genuine segments, in any order and any number of copies, are taken in at their places |
| `KcpCalls.FlushSender` | kcp_learn/ikcp.c:1046-1069 | a flush numbers fragments in order and sends only genuine segments |
| `KcpCalls.FlushReceiver` | kcp_learn/ikcp.c:973-994 | what a flush sends acknowledges only what came in |
| `KcpCalls.FlushDatagrams` | kcp_learn/ikcp.c:1110-1141 | every datagram of a flush is non-empty, at most `mtu` bytes and parses back, whole, into exactly the segments written, in order; none is sent while the next segment fits |
| `KcpWire.Layout` | kcp_learn/ikcp.c:931-942 | each field stands at its offset, least significant byte first |
| `KcpWire.ParseReads` | kcp_learn/ikcp.c:781-805 | what is read from any bytes encodes to what was read, and each code names why reading stopped |
| `KcpWire.PacketRoundTrip` | kcp_learn/ikcp.c:931-942 | an encoded segment in front of anything decodes to its fields and payload, and the rest follows |
| `KcpWire.DatagramRoundTrip` | kcp_learn/ikcp.c:781-805 | the parse loop recovers exactly the encoded segments, in order, with code 0 |
| `KcpWire.PackingRoundTrip` | kcp_learn/ikcp.c:984-992 | packing into datagrams of at most `mtu` bytes loses, splits and adds nothing, and starts a new one only when the next segment does not fit |
| `KcpInvariant.CreateOk` | kcp_learn/ikcp.c:237-300 | a new control block satisfies the endpoint invariant |
| `KcpInvariant.InputOk` | kcp_learn/ikcp.c:768-926 | the invariant is kept by any datagram at all: `snd_buf` ascends within [snd_una, snd_nxt), `snd_una` is its first number or `snd_nxt`, at most `snd_wnd` numbers are out; `rcv_buf` ascends within the receive window; `rcv_queue` is contiguous up to `rcv_nxt` and at most `rcv_wnd` long; nothing deliverable is left in `rcv_buf`; payloads fit a datagram; the probe waits not at all or 7000 to 120000 milliseconds; the threshold is at least 2 |
| `KcpInvariant.SendOk` | kcp_learn/ikcp.c:475-553 | the same, for `ikcp_send` |
| `KcpInvariant.RecvOk` | kcp_learn/ikcp.c:418-429 | the same, for `ikcp_recv` |
| `KcpInvariant.FlushOk` | kcp_learn/ikcp.c:1042-1069 | the same, for `ikcp_flush` |
| `KcpInvariant.UpdateOk` | kcp_learn/ikcp.c:1172-1198 | the same, for `ikcp_update` |
| `KcpInvariant.GrowBounded` | kcp_learn/ikcp.c:899-922 | growth ends at the peer's window, adds one segment below the threshold, and leaves a window alone that is there already |
| `KcpInvariant.GrowAvoids` | kcp_learn/ikcp.c:904-916 | beyond the threshold the window grows to as many segments as the bytes counted fill, and these by at most seventeen sixteenths of a segment |
| `KcpInvariant.FlushOpens` | kcp_learn/ikcp.c:1143-1164 | a flush leaves a window of at least one segment, and after a timeout of exactly one |
| `KcpTimer.UpdateTimer` | kcp_learn/ikcp.c:1172-1198 | `ikcp_update` between two flushes changes nothing but the time; a flush sets the next one to a later time, by no more than the interval, and keeps the beat unless it is late by an interval |
| `KcpTimer.CheckIdle` | kcp_learn/ikcp.c:1209-1247 | before the time that `ikcp_check` answers, `ikcp_update` sends nothing and changes nothing but the time |
| `KcpTimer.CheckDue` | kcp_learn/ikcp.c:1209-1247 | the update at the time answered reaches `ikcp_flush` if and only if a flush is due now, or the next flush comes within the interval and no buffered segment is to be sent again before it |
| `KcpTimer.CheckEarly` | kcp_learn/ikcp.c:1227-1240 | an input where it does not: the answer is to update at once, and that update does nothing |
| `KcpWrap.StaleNumber` | kcp_learn/ikcp.c:135-138 | a number not after another is taken for a later one if and only if it is more than 2^31 behind, around the 32-bit circle |
| `KcpWrap.StaleUna` | kcp_learn/ikcp.c:611-625 | an acknowledgement number from the past drops the first buffered segment if and only if it is that far behind |
| `KcpWrap.StaleExample` | kcp_learn/ikcp.c:611-625 | an input where it does |
| `KcpEndpoint.Endpoint.constructor` | kcp_learn/ikcp.c:237-300 | the new control block has the value `Create` and satisfies the invariant |
| `KcpEndpoint.Endpoint.Send` | kcp_learn/ikcp.c:475-553 | refines `KcpSpec.Send`, including the codes -1 and -2, and keeps the endpoint invariant |
| `KcpEndpoint.Endpoint.FillLast` | kcp_learn/ikcp.c:485-513 | stream mode: the last waiting fragment is filled up to `mss` bytes first |
| `KcpEndpoint.Endpoint.Queue` | kcp_learn/ikcp.c:519-550 | cuts the data into fragments of at most `mss` bytes whose `frg` counts down, or refuses a message that needs as many as the window has |
| `KcpEndpoint.Endpoint.Recv` | kcp_learn/ikcp.c:360-439 | refines `KcpSpec.Recv`, including the codes -1, -2, -3 and peeking, and keeps the endpoint invariant |
| `KcpEndpoint.Endpoint.Peek` | kcp_learn/ikcp.c:444-470 | the size of the first message, or -1 while it is incomplete |
| `KcpEndpoint.Endpoint.Merge` | kcp_learn/ikcp.c:386-413 | the bytes of the fragments up to the first with `frg` 0 |
| `KcpEndpoint.Endpoint.Take` | kcp_learn/ikcp.c:417-436 | removes the message, fills the queue up in order from `rcv_buf`, and asks to tell the window if it opened |
| `KcpEndpoint.Endpoint.DrainBuf` | kcp_learn/ikcp.c:740-752 | moves exactly the segments next in order, while the window has room |
| `KcpEndpoint.Endpoint.ParsePush` | kcp_learn/ikcp.c:703-763 | refines `ParseData`: a number outside the window or present is dropped, any other is inserted in ascending order |
| `KcpEndpoint.Endpoint.UpdateAck` | kcp_learn/ikcp.c:558-575 | refines `UpdateRtt` |
| `KcpEndpoint.Endpoint.ShrinkBuf` | kcp_learn/ikcp.c:577-586 | `snd_una` becomes the first buffered number, or `snd_nxt` |
| `KcpEndpoint.Endpoint.ParseAcked` | kcp_learn/ikcp.c:588-609 | refines `ParseAck`: exactly the acknowledged segment goes |
| `KcpEndpoint.Endpoint.ParseUna` | kcp_learn/ikcp.c:611-625 | refines `DropUna`: exactly the segments before the number go |
| `KcpEndpoint.Endpoint.ParseSkipped` | kcp_learn/ikcp.c:627-649 | refines `ParseFastack` |
| `KcpEndpoint.Endpoint.AckPush` | kcp_learn/ikcp.c:654-690 | appends one acknowledgement, in an array that doubles from 8 when it is full |
| `KcpEndpoint.Endpoint.AckGet` | kcp_learn/ikcp.c:692-698 | reads back the pair that was appended |
| `KcpEndpoint.Endpoint.Receive` | kcp_learn/ikcp.c:811-888 | refines `Process`, one accepted segment |
| `KcpEndpoint.Endpoint.Scan` | kcp_learn/ikcp.c:781-892 | refines `Parse` and `ProcessAll`, with the codes -1, -2 and -3 |
| `KcpEndpoint.Endpoint.Grow` | kcp_learn/ikcp.c:899-922 | refines `GrowWindow`, with unsigned 32-bit arithmetic |
| `KcpEndpoint.Endpoint.Input` | kcp_learn/ikcp.c:768-926 | refines `InputDatagram`, and keeps the endpoint invariant |
| `KcpEndpoint.Endpoint.Write` | kcp_learn/ikcp.c:985-991 | adds one segment to the packing, sending the buffer first if it does not fit |
| `KcpEndpoint.Endpoint.Unused` | kcp_learn/ikcp.c:944-950 | the free part of the receive window |
| `KcpEndpoint.Endpoint.FlushAcks` | kcp_learn/ikcp.c:982-994 | writes all pending acknowledgements and empties the list |
| `KcpEndpoint.Endpoint.Probe` | kcp_learn/ikcp.c:996-1015 | refines `ProbeTimer` |
| `KcpEndpoint.Endpoint.FlushProbes` | kcp_learn/ikcp.c:1017-1039 | writes the window probe and the window size that were asked for |
| `KcpEndpoint.Endpoint.Window` | kcp_learn/ikcp.c:1041-1044 | the smallest of the windows that apply |
| `KcpEndpoint.Endpoint.MoveQueue` | kcp_learn/ikcp.c:1046-1069 | refines `MoveData` |
| `KcpEndpoint.Endpoint.Restamp` | kcp_learn/ikcp.c:1079-1114 | decides whether and why a segment is sent, and its new times |
| `KcpEndpoint.Endpoint.FlushData` | kcp_learn/ikcp.c:1075-1135 | refines `RestampFirst` and `ResendFirst` over the whole of `snd_buf` |
| `KcpEndpoint.Endpoint.Regulate` | kcp_learn/ikcp.c:1143-1164 | refines `Congest` |
| `KcpEndpoint.Endpoint.Flush` | kcp_learn/ikcp.c:956-1165 | refines `KcpSpec.Flush`: the new state, and the datagrams handed to the output callback, in order; keeps the endpoint invariant |
| `KcpEndpoint.Endpoint.Update` | kcp_learn/ikcp.c:1172-1198 | refines `KcpSpec.Update`, and keeps the endpoint invariant |
| `KcpEndpoint.Endpoint.Check` | kcp_learn/ikcp.c:1209-1247 | refines `KcpTimer.Check` |
| `OrderedMap.OMap.constructor` | cc_learn/cc.h:4205-4209 | an empty map |
| `OrderedMap.OMap.Rotate` | cc_learn/cc.h:4395-4418 | the writes amount to the rotation of the tree in memory; the sentinel is not written |
| `OrderedMap.OMap.RotateWrites` | cc_learn/cc.h:4401-4417 | exactly which links change |
| `OrderedMap.OMap.PostInsertFixup` | cc_learn/cc.h:4421-4453 | restores the red-black rules without changing the order of the nodes |
| `OrderedMap.OMap.InsertStep` | cc_learn/cc.h:4426-4450 | one turn moves the violation up or settles it |
| `OrderedMap.OMap.FindPlace` | cc_learn/cc.h:4487-4519 | finds the node with the key, or the empty place between the smaller and the larger keys |
| `OrderedMap.OMap.Attach` | cc_learn/cc.h:4530-4541 | a new red node hangs in that place |
| `OrderedMap.OMap.Insert` | cc_learn/cc.h:4461-4547 | map update, or nothing if the key is there and not to be replaced, or nothing if there is no memory for the header of a placeholder or for the node; the handle returned is a placeholder only if it was one and stayed one; the node of an existing key and every other pair stay; a new node stands between its neighbours; all invariants hold |
| `OrderedMap.OMap.Get` | cc_learn/cc.h:4550-4570 | finds a key if and only if the map has it, in the node that stores it |
| `OrderedMap.OMap.BoundedFirstOrLast` | cc_learn/cc.h:4577-4602 | the first node not below the key, or the last not above it, or an end |
| `OrderedMap.OMap.PostEraseFixup` | cc_learn/cc.h:4608-4653 | restores the red-black rules without changing the order, starting at a node or at the sentinel |
| `OrderedMap.OMap.EraseStep` | cc_learn/cc.h:4616-4648 | one turn repairs the tree, or moves the missing blackness up |
| `OrderedMap.OMap.ToDetach` | cc_learn/cc.h:4666-4675 | the node itself, or its successor if it has two children |
| `OrderedMap.OMap.Detach` | cc_learn/cc.h:4677-4684 | the only child takes the place of the detached node |
| `OrderedMap.OMap.Supplant` | cc_learn/cc.h:4695-4712 | the detached successor takes over the place, links and colour of the node |
| `OrderedMap.OMap.EraseRaw` | cc_learn/cc.h:4656-4722 | exactly this node is freed; every other key stays in its node; order, colours, black heights and links are restored and the root's parent is the sentinel |
| `OrderedMap.OMap.Erase` | cc_learn/cc.h:4727-4745 | map removal; the result says whether the key was there; other nodes stay |
| `OrderedMap.OMap.FirstOrLast` | cc_learn/cc.h:4289-4303 | the first or last node in the order, or an end |
| `OrderedMap.OMap.Iterate` | cc_learn/cc.h:4323-4353 | the neighbour in the order, or an end; from an end the first or last |
| `OrderedMap.OMap.EraseItr` | cc_learn/cc.h:4751-4765 | the iterator returned stands where the erased node stood |
| `OrderedMap.OMap.Logarithmic` | cc_learn/cc.h:4421-4453 | a map of height h with n pairs has 2^h <= (n + 1)^2 |
| `OrderedMap.OMap.ClearStep` | cc_learn/cc.h:4781-4806 | one move of the walk: down, cutting the link behind, or up, freeing the node |
| `OrderedMap.OMap.Clear` | cc_learn/cc.h:4768-4814 | terminates with every node freed exactly once |
| `OrderedMap.OMap.CloneTurn` | cc_learn/cc.h:4879-4918 | one move of both walks, or the failure of an allocation |
| `OrderedMap.OMap.Clone` | cc_learn/cc.h:4835-4923 | a map of its own with the same shape, colours and contents, in new nodes; none if and only if the source is not empty and the memory does not suffice, and then each node allocated so far is freed exactly once |
| `RbTree.HeightBound` | cc_learn/cc.h:4421-4453 | every red-black tree of height h with n nodes has 2^h <= (n + 1)^2 |
| `RbFix.PushUpOk` | cc_learn/cc.h:4431-4437 | red uncle: the violation moves up two levels |
| `RbFix.SettleOk` | cc_learn/cc.h:4446-4448 | black uncle: one rotation settles the violation |
| `RbFix.RestoreOk` | cc_learn/cc.h:4643-4646 | red nephew on the far side: the tree is red-black again |
| `RbFix.MergeOk` | cc_learn/cc.h:4627-4632 | black nephews: the missing blackness moves up |
| `HashProbe.ReachesAll` | cc_learn/cc.h:2897-2903 | for every power-of-two bucket count each bucket is reached from each home bucket by exactly one displacement below the count |
| `HashProbe.QuadClosed` | cc_learn/cc.h:2900-2903 | the running sum of the search is the closed form of the chain walks |
| `HashChain.OneChain` | cc_learn/cc.h:2842-2866 | every occupied bucket lies on exactly one chain, the one that begins at its key's home bucket |
| `HashChain.WalkAll` | cc_learn/cc.h:2842-2866 | from any pair the links lead to exactly the pairs of its chain further out, in strictly ascending displacement |
| `HashChain.UnlinkOk` | cc_learn/cc.h:3107-3109 | disconnecting a pair keeps all other chains whole |
| `HashChain.LinkInOk` | cc_learn/cc.h:3127-3132 | linking a pair in keeps the chain ordered and whole |
| `HashChain.BeginOk` | cc_learn/cc.h:3185-3187 | beginning a chain keeps the others whole |
| `HashChain.TakeOverOk` | cc_learn/cc.h:3729-3732 | the last pair of a chain may take over a bucket of it |
| `HashWord.EmptyWord` | cc_learn/cc.h:2883-2888 | the empty metadatum is the word zero, and no other |
| `HashWord.UnlinkWords` | cc_learn/cc.h:3108-3109 | the mask expression of the source is the unlinking of the model |
| `HashWord.EndWords` | cc_learn/cc.h:3702-3703 | so is ending a chain |
| `HashWord.LinkInWords` | cc_learn/cc.h:3128-3132 | so is linking in |
| `HashWord.BeginWords` | cc_learn/cc.h:3187-3187 | so is beginning a chain |
| `HashWord.TakeOverWords` | cc_learn/cc.h:3729-3735 | so is taking over a bucket and emptying another |
| `HashMap.Table.Words` | cc_learn/cc.h:2917-2920 | every metadatum of a valid table, and the stopper, is a 16-bit word, and only empty ones are zero |
| `HashMap.Table.Placeholder` | cc_learn/cc.h:2928-2929 | an empty map without buckets |
| `HashMap.Table.constructor` | cc_learn/cc.h:3342-3353 | an empty table with its stopper |
| `HashMap.Table.FindFirstEmpty` | cc_learn/cc.h:3029-3050 | the first empty bucket along the probe sequence, at a displacement below the end-of-chain mark; failure means that all within the limit are occupied |
| `HashMap.Table.FewHaveRoom` | cc_learn/cc.h:3029-3050 | it cannot fail while there are fewer pairs than buckets and fewer than 2047; so with at most 1024 buckets not while one is empty |
| `HashMap.Table.FindInsertLocation` | cc_learn/cc.h:3056-3072 | the pair of the chain behind which a displacement belongs |
| `HashMap.Table.Evict` | cc_learn/cc.h:3085-3135 | moves a pair along its chain; fails exactly if there is no room, and then leaves that pair, and no other, off its chain |
| `HashMap.Table.InsertRaw` | cc_learn/cc.h:3149-3253 | map update, or nothing if the key is there and not to be replaced; fails exactly if the key is new and the load or the displacement limit forbids it; all pairs stay stored, and the pair in the home bucket is off its chain exactly if it was stranded, which the table left behind still shows; no pair is taken beyond the maximum load, and none within it refused but for lack of a place |
| `HashMap.Table.MostMeans` | cc_learn/cc.h:3175-3175 | the load check compares with the maximum load times the number of buckets |
| `HashMap.Table.NextDoubles` | cc_learn/cc.h:3464-3468 | the next bucket count is twice the present one, or eight |
| `HashMap.Table.Reinsert` | cc_learn/cc.h:3262-3311 | map update for a new key; fails exactly if it finds no place |
| `HashMap.Table.Rehash` | cc_learn/cc.h:3342-3376 | one attempt: all pairs, or the bucket count is jammed, which it never is if there are as many buckets as pairs and at most 2047 pairs |
| `HashMap.Table.MakeRehash` | cc_learn/cc.h:3324-3380 | a valid table with exactly the pairs of all occupied buckets, even of one off its chain; all smaller bucket counts tried were allocated and are jammed, and it fails only if memory is refused for a count all of whose predecessors are jammed |
| `HashMap.Table.Insert` | cc_learn/cc.h:3430-3484 | map update in this table if the pair fits, and otherwise in a larger one, where all smaller counts from the next on are cramped; fails only if memory is refused for a count all of whose predecessors are cramped; with fewer than 2047 pairs and below the maximum load, exactly if the next count is refused; on failure a pair of the table returned is off its chain exactly if that table shows it stranded; the table returned is within the maximum load, and a larger one only if this one would exceed it or had no place |
| `HashJam.BlockedCount` | cc_learn/cc.h:3036-3049 | a search that finds no empty bucket needs 2047 stored keys, or as many as there are buckets |
| `HashJam.FewNeverJam` | cc_learn/cc.h:3370-3376 | no bucket count is jammed by as many keys, up to 2047 |
| `HashJam.FewFit` | cc_learn/cc.h:3446-3483 | so below the maximum load growing stops there |
| `HashStranded.IsStranded` | cc_learn/cc.h:3107-3115 | a state of 2048 buckets in which a pair has to make room and cannot |
| `HashStranded.Missed` | cc_learn/cc.h:3466-3477 | an execution after which a lookup misses a stored pair |
| `HashStranded.EvictsAgain` | cc_learn/cc.h:3178-3183 | on the table that it leaves, the same insertion evicts again |
| `HashStranded.TrailMisses` | cc_learn/cc.h:3093-3105 | and no step of that walk is the bucket it looks for, so it never ends |
| `HashMap.Table.Get` | cc_learn/cc.h:3486-3521 | finds a key if and only if the map has it, except that of a pair off its chain |
| `HashMap.Table.EraseRaw` | cc_learn/cc.h:3647-3747 | map removal; which bucket is empty afterwards, which pair moved, and whether an iterator has to advance |
| `HashMap.Table.EraseOnly` | cc_learn/cc.h:3661-3674 | a pair alone in its chain |
| `HashMap.Table.EraseLast` | cc_learn/cc.h:3690-3709 | the last pair of a chain |
| `HashMap.Table.EraseInner` | cc_learn/cc.h:3711-3746 | any other: the last pair of the chain moves into its bucket |
| `HashMap.Table.Erase` | cc_learn/cc.h:3775-3812 | map removal; the result says whether the key was there |
| `HashMap.Table.LeapForward` | cc_learn/cc.h:3541-3555 | the four-at-a-time scan finds what a linear search finds, and ends at the stopper |
| `HashMap.Table.First` | cc_learn/cc.h:3591-3603 | the first occupied bucket, or the end |
| `HashMap.Table.Next` | cc_learn/cc.h:3626-3635 | the next occupied bucket, or the end |
| `HashMap.Table.EraseItr` | cc_learn/cc.h:3753-3770 | the keys before the iterator returned are those that were before the erased one, and those from it on are those that were, without the erased one |
| `HashMap.Table.Sweep` | cc_learn/cc.h:3638-3646 | iterating while erasing visits every key that was there at the start exactly once, and erases exactly the chosen ones |
| `SpinLock.MutualExclusion` | gcc_learn/__atomic_compare_exchange_n.c:14-59 | in every interleaving of any number of threads at most one is between lock and unlock, and the sum is the number of increments |
| `SpinLock.StepBounded` | gcc_learn/__atomic_compare_exchange_n.c:50-55 | the sum and the increments to come stay at most max + N - 1 |
| `SpinLock.FinalSum` | gcc_learn/__atomic_compare_exchange_n.c:45-59 | when all threads have stopped the sum is between max and max + N - 1 |
| `SpinLock.Overshoot` | gcc_learn/__atomic_compare_exchange_n.c:45-59 | the upper bound is attained, for every number of threads and every maximum |
| `Sha256.PaddedLeast` | crypto-algorithms_learn/sha256.c:119-147 | the padded message is the message, a one bit, zeros and the length in bits; its length is the least multiple of 64 that leaves room for them |
| `Sha256.LastBlocks` | crypto-algorithms_learn/sha256.c:124-147 | the last one or two blocks are those of the padded message |
| `Sha256.Context.constructor` | crypto-algorithms_learn/sha256.c:90-102 | an empty message |
| `Sha256.Context.Update` | crypto-algorithms_learn/sha256.c:104-117 | appends the bytes to the message, with the buffer index below 64 between calls |
| `Sha256.Context.PadShort` | crypto-algorithms_learn/sha256.c:125-129 | padding that fits the last block |
| `Sha256.Context.PadLong` | crypto-algorithms_learn/sha256.c:130-136 | padding that takes one more block |
| `Sha256.Context.PutLength` | crypto-algorithms_learn/sha256.c:140-147 | the length in bits, most significant byte first |
| `Sha256.Context.Final` | crypto-algorithms_learn/sha256.c:119-163 | the hash is the fold of the compression function over the padded message, however the message was split into updates; four bytes stand for each state word, most significant first |
| `Sha256.AbsorbStates` | crypto-algorithms_learn/sha256.c:104-117 | that fold, block by block |
| `Sha256.LengthBytes` | crypto-algorithms_learn/sha256.c:140-147 | the eight bytes stand for the length |
| `DesPermutation.InvIpAfterIp` | crypto-algorithms_learn/des.c:79-149 | the final permutation undoes the initial one, on every block |
| `DesPermutation.IpTable` | crypto-algorithms_learn/des.c:79-106 | bit i of each word is the bit of the block that the table of FIPS 46-3 names |
| `Des.PermuteInverse` | crypto-algorithms_learn/des.c:79-149 | and the other way around |
| `Feistel.Inverse` | crypto-algorithms_learn/des.c:271-286 | rounds with the keys in reverse order undo the rounds, for any round function |
| `Des.Crypt` | crypto-algorithms_learn/des.c:271-286 | fifteen rounds and a last one without the switch are sixteen rounds and a switch |
| `Des.CryptClimbs` | crypto-algorithms_learn/des.c:271-286 | eighteen words between the permutations, each from the two before it and a subkey |
| `Des.SubkeysRotated` | crypto-algorithms_learn/des.c:245-269 | subkey i is extracted after i + 1 rotations |
| `Des.KeySetup` | crypto-algorithms_learn/des.c:222-269 | the schedule of decryption is that of encryption reversed |
| `Des.DesInverse` | crypto-algorithms_learn/des.c:271-286 | decryption undoes encryption, and the other way around, for every key |
| `Des.TripleCrypt` | crypto-algorithms_learn/des.c:303-308 | three passes |
| `Des.TripleInverse` | crypto-algorithms_learn/des.c:288-308 | triple decryption undoes triple encryption, for any three keys |
| `Des.TripleSingle` | crypto-algorithms_learn/des.c:288-308 | with two equal neighbouring keys triple DES is DES |
| `Blowfish.Encrypt` | crypto-algorithms_learn/blowfish.c:253-290 | the iterations and the last switch on the two halves |
| `Blowfish.Decrypt` | crypto-algorithms_learn/blowfish.c:292-329 | the same with the P-array from the back |
| `Blowfish.CryptTraced` | crypto-algorithms_learn/blowfish.c:253-290 | sixteen iterations, each with its entry of the P-array, and the whitening |
| `Blowfish.WordBigEndian` | crypto-algorithms_learn/blowfish.c:258-259 | the first byte is the most significant |
| `Blowfish.BlowfishInverse` | crypto-algorithms_learn/blowfish.c:253-329 | decryption undoes encryption of every block, for every P-array and every F |
| `AesTables.SboxInverse` | crypto-algorithms_learn/aes.c:56-124 | the tables are inverse on every byte |
| `AesMix.UnmixedMixed` | crypto-algorithms_learn/aes.c:979-1157 | the inverse column mixing undoes the mixing |
| `AesMix.SboxMeans` | crypto-algorithms_learn/aes.c:56-90 | the S-box is the affine transformation of the inverse in GF(2^8), on every byte |
| `AesMix.TwiceReduced` | crypto-algorithms_learn/aes.c:133-300 | doubling is the remainder modulo the polynomial 0x11B |
| `Aes.SubCell` | crypto-algorithms_learn/aes.c:875-915 | substitution, cell by cell |
| `Aes.ShiftedCell` | crypto-algorithms_learn/aes.c:920-975 | row r moves r places |
| `Aes.MixedCell` | crypto-algorithms_learn/aes.c:979-1068 | each cell of a mixed column is the product with a row of the matrix 2 3 1 1 |
| `Aes.AddCell` | crypto-algorithms_learn/aes.c:826-870 | key addition, cell by cell |
| `AesModes.StateCell` | crypto-algorithms_learn/aes.c:1172-1188 | byte 4c + r is row r of column c |
| `Aes.StepsInverse` | crypto-algorithms_learn/aes.c:826-1157 | each step of a round has its inverse |
| `AesRounds.DecryptEncrypt` | crypto-algorithms_learn/aes.c:1163-1386 | so the rounds have, for any round keys |
| `AesRounds.EncryptedRounds` | crypto-algorithms_learn/aes.c:1190-1278 | the states of an encryption, round by round |
| `AesRounds.DecryptedRounds` | crypto-algorithms_learn/aes.c:1300-1386 | and of a decryption |
| `AesRounds.RoundsAgree` | crypto-algorithms_learn/aes.c:1163-1386 | encryption and decryption use the same number of rounds if and only if the key size is 128 or at least 192 |
| `AesRounds.RoundsDiffer` | crypto-algorithms_learn/aes.c:1163-1386 | a key size argument for which they do not |
| `AesRounds.Encrypt` | crypto-algorithms_learn/aes.c:1163-1278 | the unrolled rounds are the fold over the round keys |
| `AesRounds.Decrypt` | crypto-algorithms_learn/aes.c:1280-1386 | the same, backwards |
| `Aes.AesInverse` | crypto-algorithms_learn/aes.c:1163-1386 | decryption undoes encryption of every block, for every round-key array and each key size argument for which both make the same number of rounds |
| `BlockModes.EncryptCbc` | crypto-algorithms_learn/aes.c:403-426 | block i is the encryption of block i of the input mixed with block i - 1 of the output, or with the initialisation vector; failure exactly if the length is not a multiple of 16 |
| `BlockModes.DecryptCbc` | crypto-algorithms_learn/aes.c:455-478 | block i is the decryption of block i of the input mixed with block i - 1 of the input |
| `BlockModes.CbcInverse` | crypto-algorithms_learn/aes.c:403-478 | decryption undoes encryption of any number of blocks |
| `AesModes.AesCbcInverse` | crypto-algorithms_learn/aes.c:403-478 | for AES with these key size arguments |
| `CounterBlock.IncrementIv` | crypto-algorithms_learn/aes.c:483-495 | in place: the last n bytes are incremented with carry, the others stay |
| `CounterBlock.IncrementedValue` | crypto-algorithms_learn/aes.c:483-495 | that adds one modulo 256^n to the big-endian number |
| `CounterBlock.CountersDiffer` | crypto-algorithms_learn/aes.c:499-522 | no counter block comes twice within 256^n blocks |
| `AesModes.AesCountersDiffer` | crypto-algorithms_learn/aes.c:499-522 | for the sixteen-byte counter blocks of AES |
| `BlockModes.Ctr` | crypto-algorithms_learn/aes.c:499-522 | every byte is mixed with the key stream byte of its place, for any length |
| `BlockModes.CtrInverse` | crypto-algorithms_learn/aes.c:524-529 | CTR twice is the identity |
| `AesModes.AesCtrInverse` | crypto-algorithms_learn/aes.c:524-529 | for AES |
| `Base64.RevChar` | crypto-algorithms_learn/base64.c:25-39 | undoes the character table |
| `Base64.Alphabet` | crypto-algorithms_learn/base64.c:20-22 | the alphabet of RFC 4648 |
| `Base64.TailOfGroup` | crypto-algorithms_learn/base64.c:77-90 | one or two bytes at the end are coded as a group filled up with zeros |
| `Base64.SextetsOf24Bits` | crypto-algorithms_learn/base64.c:58-63 | the groups are those of section 4 of RFC 4648 |
| `Base64.SizeExact` | crypto-algorithms_learn/base64.c:48-54 | the size-only mode counts exactly the characters written, with and without line breaks |
| `Base64.Encode` | crypto-algorithms_learn/base64.c:41-94 | the text of the input, of the announced size |
| `Base64Decode.RoundTrip` | crypto-algorithms_learn/base64.c:96-150 | decoding what was encoded gives the input back if and only if there are no line breaks or their number fits |
| `Base64Decode.Survival` | crypto-algorithms_learn/base64.c:105-123 | which a caller can tell from the number of bytes |
| `Base64Decode.Lost` | crypto-algorithms_learn/base64.c:105-123 | an input that does not come back |
| `Base64Decode.Decode` | crypto-algorithms_learn/base64.c:96-150 | the loop of the source, on every text and whatever lies beyond it |
| `Base64Decode.SizeBack` | crypto-algorithms_learn/base64.c:109-121 | the size-only mode announces the number of bytes that were encoded, with and without line breaks |
| `Base64Decode.DecodeSize` | crypto-algorithms_learn/base64.c:96-121 | the size-only mode of the source |

## Findings

Properties that the code does not have, with an input that shows it and the exact condition under which it does.

| what one might expect | counterexample | condition |
|---|---|---|
| the update at the time that `ikcp_check` answers sends what is due | `KcpTimer.CheckEarly` | `KcpTimer.CheckDue` |
| an old acknowledgement number never drops unreceived data | `KcpWrap.StaleExample` | `KcpWrap.StaleUna` |
| an insertion that fails for lack of memory leaves every pair to be found | `HashStranded.Missed` | `HashMap.Table.Insert` (the clause on `loose`) and `HashMap.Table.Get` |
| encryption and decryption of AES use the same number of rounds for any key size argument | `AesRounds.RoundsDiffer` | `AesRounds.RoundsAgree` |
| `base64_decode` gives back what `base64_encode` wrote with line breaks | `Base64Decode.Lost` | `Base64Decode.RoundTrip` |

## Left out

- The macros, type dispatch, layout and string functions of cc_learn/cc.h, and its vectors, strings, sets and ordered sets: plumbing or thin wrappers.
- Destructors, reserve, shrink and clone of the unordered map, and its deprecated backward iteration: they would only add easy members.
- HashMap.Table.InsertRaw: a table that an earlier failed insertion left with a pair off its chain is not covered, because there the same call may never end; see `HashStranded.TrailMisses`.
- HashMap.Table.Insert: the same tables are not covered, for the same reason.
- HashMap.Table.Erase: the same tables are not covered, because the pair off its chain is not found.
- HashMap.Table.EraseItr: the same tables are not covered, because the walk to the pair off its chain may never end.
- HashMap.Table.Sweep: the same tables are not covered, because it uses `EraseItr`.
- The hash functions of cc_learn/cc.h: any function of the key is allowed.
- `ikcp_nodelay`, `ikcp_setmtu` and `ikcp_wndsize` during a run, logging, callbacks and the clock: parameters or fixed for a run.
- KcpSystem.DeliveredInOrder: runs of 2^31 fragments or more are not covered, because old acknowledgement numbers are then misread; see `KcpWrap.StaleUna`.
- KcpEndpoint.Endpoint.UpdateAck: smoothed times are unbounded integers, because they stay below 2^31 unless a round trip takes days.
- Delivery in the end: `KcpProgress.Progress` is about one exchange without loss; nothing is said about fairness, throughput or how good the round-trip estimates are.
- KcpProgress.Progress: windows that together span more than half of the numbers are not covered, because old numbers are then misread.
- SpinLock.MutualExclusion: the counter is unbounded, because it stays below max + N, and memory ordering weaker than sequential consistency is not modelled.
- Sha256.Context.Update: messages of 2^32 bytes or more in one `sha256_update` are not covered, because the source counts with a 32-bit index.
- Des.KeySetup: the permuted choices and the bit selection of subkeys are parameters, because the inversion does not depend on them.
- AES-CCM, the AES and Blowfish key expansion, the bit selection of the DES round function and subkeys, and the compression function of SHA-256: the results hold for any round keys and functions.
- MD2, MD5, SHA-1, ARCFOUR and ROT-13: the same shapes, or easy.
- The directories that demonstrate libraries and system calls: no logic of their own.
