# The Open5GS runtime, verified

Open5GS is a mobile core network written in C. This project models the hard parts of its shared
runtime in Dafny 4.11 and proves what they promise: the intrusive red-black tree and the timer
manager on top of it, the descriptor-driven TLV codec, the hash table, the bounded blocking queue,
the slot pools and the reference-counted packet buffers, and three chunked crypto loops.
`dafny verify dfyconfig.toml` checks everything.

## How it is laid out

Code that works in place is modelled in place: classes whose methods rewrite fields, arrays and
linked nodes. Each such method is proved against a specification on values, and what the source
promises is then proved about the specification, over all inputs and all runs.

| files | source | what they hold |
|---|---|---|
| Prelude | | bytes, options, distinct slots, powers of two |
| RbShape, RbLinks, RbBalance, RbTree | ogs-rbtree.c/.h | trees and their contexts as values; what rotations do to linked nodes; the fix-up cases; the code |
| Pool | ogs-pool.h | the ring of free slots and the live index |
| TimerSpec, List, Timer, Expiry | ogs-timer.c, ogs-list.h | the manager as a queue; the code; expiry with callbacks |
| TlvSpec, TlvPut, TlvHeap | ogs-tlv.c | the wire format; header writers; nodes in their pool |
| TlvMsgSpec, TlvMsgProof, TlvMsgGaps, TlvMsgEnds | ogs-tlv-msg.c | building and parsing as functions; the round trip; when it is complete |
| TlvMsgLeaf, TlvMsgSkips, TlvMsgAccepts, TlvMsgAborts | ogs-tlv-msg.c | what a field takes; elements that are skipped; which packets are accepted, and which stop the parser |
| TlvList, TlvBuild, TlvParse, TlvExchange, TlvRebuild | ogs-tlv-msg.c | the builder and the parser in place, and one after the other; a second build |
| HashKey, HashSpec, HashIter, Hash | ogs-hash.c | keys; the table as a map; iteration and rehash; the code |
| QueueRing, QueueSpec, QueueRun, QueueProof, QueueLaws, QueueEnd, QueueResults | ogs-queue.c | the ring; the code under the mutex; threads as steps; invariants; laws of runs; what results tell |
| PkbufSpec, PkbufProof, Pkbuf | ogs-pkbuf.c | packet buffers and clusters; what operations keep; the code |
| Gf2, Mul64, F9 | snow-3g.c | polynomials over GF(2); MUL64; the message authentication code |
| Sha256Spec, Sha256 | ogs-sha2.c | padding and fold; the streaming context |
| AesCounter, AesCtr | ogs-aes.c | the counter; counter mode |

## Findings

Where the code falls short of what its callers may expect, the model keeps the code as it is, and
a lemma gives an input that shows it or the exact condition under which the code does what is
expected.

- Timer expiry can stop early. A callback that deletes its own timer and adds another can be given
  the same slot, whose list link the add clears (lib/core/ogs-timer.c:92); the timers behind it in
  the expiry list are not fired. `TimerSpec.CutShort` is such a run; `Expiry.Expire` fires all due
  timers if and only if no callback but the last has its own slot issued again; and
  `TimerSpec.ReissueNeedsDelete` shows that this takes a callback that deletes its own timer.
- A wakeup of the queue can be lost when a thread that waits with a timeout takes a signal and
  reports a timeout all the same, which the caller then treats as a timeout (lib/core/ogs-queue.c:228-231).
  `QueueLaws.LostWakeup` is such a run; by `QueueLaws.HeardExactly` no wakeup is lost, in any run,
  if and only if the platform's timed wait never does that or callers use no positive timeouts.
- `ogs_hash_clear` stops the program exactly when the table holds the empty string key: it is
  stored with length 0 (lib/core/ogs-hash.c:244-249), which deletion refuses. `Hash.Table.Clear` and
  `Hash.EmptyKeyAborts`.
- A failed packet buffer allocation leaves a cluster behind for good (lib/core/ogs-pkbuf.c:233-245,
  lib/core/ogs-pkbuf.c:357-363). `PkbufProof.FullAgain`: all pools fill up again if and only if no
  allocation failed; `PkbufProof.ClusterLost` is a run in which one failed. When the clusters run
  out, an allocation stops the program instead of failing (`PkbufProof.AllocKeeps`).
- A message comes back from the wire with all its fields if and only if its repeated fields have
  no gaps: what stands behind a gap is not built (`TlvMsgEnds.ComesBack`). `TlvMsgEnds.GapLost` is a
  message that loses a field.
- Building a message swaps its numbers in place. A second build of the same struct sends the same
  packet if and only if every number in it has bytes that read the same backwards
  (`TlvRebuild.RebuildsSame`); `TlvRebuild.SecondDiffers` is a struct of which it does not.
- A build that fails gives none of its nodes back (`TlvBuild.BuildPacket`, `TlvMsgEnds.FailureLeaks`).
- A packet can stop the program that parses it. For any table of descriptors there is such a
  packet if and only if it has a repeated field, or a compound that a header can name has a table
  with such a packet (`TlvMsgAborts.AbortsExactly`): an element of type 0 and instance 0 is taken
  for the descriptor that marks the repetition. So does one copy more than the message has room
  for (`TlvMsgAborts.OneTooMany`, `TlvMsgAborts.CopiesPacket`; `TlvMsgAborts.ExtraCopy` is a packet).
- An element that is shorter than the number it is for is accepted, and the number is completed with
  bytes behind the element (lib/core/ogs-tlv-msg.c:422-466). `TlvMsgLeaf.SettledExactly`: what is stored
  depends on the element's own bytes alone if and only if it is not such a short number.
- SHA-256 writes only the four low bytes of the message length. `Sha256.TailIsPadding`: the padding
  is the standard's if and only if the message is under 2^29 bytes. An update whose length wraps
  when the bytes waiting are added drops its data (`Sha256.Context.Update`).
- The message authentication code f9 takes D - 2 turns in unsigned arithmetic, which is the number
  of blocks less one if and only if the message is not empty; for an empty one it takes 2^32 - 1
  (`F9.TurnsExact`).

## Model

| member | source | states |
|---|---|---|
| RbTree.Tree.Delete | lib/core/ogs-rbtree.c:323-372 | Deleting any node of a valid red-black tree leaves a valid one: parent and child links agree, the root is black, no red node has a red child, all paths have the same number of black nodes, and the in-order sequence is the old one without that node |
| RbTree.Tree.DeleteColor | lib/core/ogs-rbtree.c:212-321 | From a tree that is one black node short at one place, which may be a null child, the fix-up loop ends in a valid tree with the same in-order sequence |
| RbTree.Tree.Unlink | lib/core/ogs-rbtree.c:331-368 | Taking a node out, by itself or through its successor, removes exactly that node from the order, and leaves one place short of a black node just when the node taken out was black |
| RbTree.Tree.LinkNode | lib/core/ogs-rbtree.h:52-61 | Linking puts a red leaf at the place described by the context and touches nothing else |
| RbTree.Tree.InsertColor | lib/core/ogs-rbtree.c:92-210 | Recolouring after a link restores every red-black law and keeps the in-order sequence |
| RbTree.Tree.Insert | lib/core/ogs-timer.c:51-52 | Link and recolour together: the tree is valid and its order has the new node exactly between what stood before and behind its place |
| RbTree.Tree.RotateLeft | lib/core/ogs-rbtree.c:55-66 | The pointer writes of a left rotation realise the rotation of the represented tree, whatever is above it |
| RbTree.Tree.RotateRight | lib/core/ogs-rbtree.c:79-90 | The mirror image |
| RbBalance.FlipStep | lib/core/ogs-rbtree.c:107-122 | With a red uncle, the colour flip moves the only red-red pair two levels up and keeps the order |
| RbBalance.InnerStep | lib/core/ogs-rbtree.c:125-138 | The inner rotation makes the red-red pair an outer one and keeps the order |
| RbBalance.OuterStep | lib/core/ogs-rbtree.c:140-152 | The outer rotation with its two colours removes the red-red pair and keeps the order |
| RbBalance.RedSiblingStep | lib/core/ogs-rbtree.c:222-236 | With a red sibling, one rotation leaves the same shortage below a black sibling |
| RbBalance.PaleStep | lib/core/ogs-rbtree.c:237-250 | With two black nephews, the sibling turns red and the shortage moves up |
| RbBalance.NearNephewStep | lib/core/ogs-rbtree.c:252-269 | With only the near nephew red, a rotation at the sibling makes the far nephew red |
| RbBalance.RepayStep | lib/core/ogs-rbtree.c:270-286 | With a red far nephew, one rotation repays the missing black node and the whole tree is red-black |
| RbShape.HeightBound | lib/core/ogs-rbtree.c:92-210 | In a red-black tree of n nodes the height is at most 2 log2(n + 1) |
| RbTree.Tree.First | lib/core/ogs-rbtree.c:374-384 | The first node in order, or null for an empty tree |
| RbTree.Tree.Last | lib/core/ogs-rbtree.c:386-396 | The last node in order, or null |
| RbTree.Tree.Next | lib/core/ogs-rbtree.c:400-416 | Descending to the right or climbing parent pointers finds the next node of the in-order sequence, or null behind the last |
| RbTree.Tree.Prev | lib/core/ogs-rbtree.c:418-434 | The same backwards |
| RbTree.Tree.ForEach | lib/core/ogs-rbtree.h:93-95 | The forward walk visits exactly the in-order sequence, each node once, and ends |
| RbTree.Tree.ReverseForEach | lib/core/ogs-rbtree.h:97-99 | The backward walk visits it in reverse |
| RbTree.Tree.Count | lib/core/ogs-rbtree.h:106-113 | The count is the number of nodes |
| Pool.Pool.Alloc | lib/core/ogs-pool.h:73-82 | The slot handed out is the one that has been free longest, and it becomes live; nothing changes when none is free |
| Pool.Pool.Free | lib/core/ogs-pool.h:84-91 | A live slot freed goes behind all free ones |
| Pool.Pool.Find | lib/core/ogs-pool.h:68-69 | An index finds its node exactly while the node is live |
| Pool.RunSound | lib/core/ogs-pool.h:73-91 | Over every run that frees only live nodes, free slots stay distinct and in range, so that no live node is handed out |
| Pool.RunIsFifo | lib/core/ogs-pool.h:73-91 | Over every run, slots come out in the order in which they were free, then freed |
| Pool.FreedSlotWaits | lib/core/ogs-pool.h:73-91 | A freed slot is reissued only after every slot that was free before it |
| Pool.AvailPlusLive | lib/core/ogs-pool.h:93-94 | Available and live slots together are all slots |
| List.List.Add | lib/core/ogs-list.h:114-125 | Adding a node to the expiry list appends it and keeps the chain intact |
| Timer.Manager.Add | lib/core/ogs-timer.c:79-99 | Adding a timer takes a slot from the pool, or none when it is exhausted, clears its list link, and leaves the running timers alone |
| Timer.Manager.Start | lib/core/ogs-timer.c:118-138 | A timer started, running or not, stands in the queue once, behind every timer due no later |
| Timer.Manager.Stop | lib/core/ogs-timer.c:140-158 | A timer stopped leaves the queue, and the others keep their order |
| Timer.Manager.Delete | lib/core/ogs-timer.c:101-116 | A timer deleted leaves the queue and gives its slot back |
| Timer.Manager.RunningExactly | lib/core/ogs-timer.c:79-158 | In every state the tree holds exactly the allocated timers marked running, each once, ordered by timeout |
| TimerSpec.StepKeeps | lib/core/ogs-timer.c:79-158 | Every legal operation keeps the manager's invariant, hence every run does |
| TimerSpec.TiesAreFifo | lib/core/ogs-timer.c:30-53 | Of two timers due at the same time, the one started later stands behind the other, whatever is done with other timers between the two starts and after them |
| TimerSpec.TiesAdjacent | lib/core/ogs-timer.c:30-53 | Started in a row, the second stands next to the first |
| TimerSpec.StepBefore | lib/core/ogs-timer.c:79-158 | An operation on other timers leaves any two in their order |
| Expiry.NextGap | lib/core/ogs-timer.c:160-178 | -1 when nothing runs, 0 when the earliest timer is due, otherwise the exact time until something is due |
| Expiry.Expire | lib/core/ogs-timer.c:180-207 | Expiry fires timers due at the sampled time, earliest first, each once and no other; it fires all of them if and only if no callback but the last has its own slot issued again; afterwards the manager is valid |
| TimerSpec.DueExact | lib/core/ogs-timer.c:190-199 | The timers collected are exactly those whose time has come |
| TimerSpec.FireMeaning | lib/core/ogs-timer.c:201-206 | The timers fired are a prefix of those due; those not fired keep running; the exact condition for all to fire |
| TimerSpec.NoDeleteFiresAll | lib/core/ogs-timer.c:201-206 | An expiry fires every due timer when no callback deletes its own timer |
| TimerSpec.ReissueNeedsDelete | lib/core/ogs-timer.c:79-116 | A timer's slot is issued again during its callback only if the callback deletes that timer |
| TimerSpec.CutShort | lib/core/ogs-timer.c:79-99 | Two due timers of which the second is not fired |
| TlvSpec.HeaderBytes | lib/core/ogs-tlv.c:164-217 | The bytes of a header in each of the five formats: type, length and instance, in one or two bytes each, high byte first |
| TlvSpec.EncodeSize | lib/core/ogs-tlv.c:109-146 | The length calculated for a forest is the number of bytes rendering writes |
| TlvSpec.ScanEncode | lib/core/ogs-tlv.c:436-474 | Parsing rendered bytes gives back type, instance and value of every node, in order, and ends at the last byte |
| TlvSpec.RoundTrip | lib/core/ogs-tlv.c:402-481 | The same for whole forests, embedded blocks recovered by the embedded parse at every depth |
| TlvSpec.ScanExact | lib/core/ogs-tlv.c:436-474 | Conversely, a block that parses exactly is the rendering of what was parsed |
| TlvSpec.BlockAdds | lib/core/ogs-tlv.c:436-474 | A block is parsed if and only if what its elements take with their headers adds up to its length |
| TlvSpec.BehindIgnored | lib/core/ogs-tlv.c:436-474 | Bytes behind a block, which the parser may read, never change the outcome of a parse that ends at the block's end |
| TlvSpec.LowHalfIs | lib/core/ogs-tlv.c:239 | Of an instance byte the low half is kept |
| TlvHeap.Store.CalcLength | lib/core/ogs-tlv.c:109-146 | On linked nodes, the sum of the calculation is the size of the forest they represent, and only the lengths of nodes with embedded blocks are rewritten |
| TlvHeap.Store.Render | lib/core/ogs-tlv.c:402-433 | Rendering linked nodes writes exactly the encoding of their forest into the block and nothing outside it |
| TlvHeap.Store.ParseBlock | lib/core/ogs-tlv.c:436-474 | Parsing a block links nodes taken from the front of the pool that show its elements; on a failed parse all of them are free again; it stops the program only when the pool is exhausted |
| TlvHeap.Store.FreeAll | lib/core/ogs-tlv.c:65-78 | Freeing a forest gives back its slots, embedded ones before their parents |
| TlvHeap.FreesAll | lib/core/ogs-tlv.c:65-78 | Every slot of the forest is given back exactly once |
| TlvMsgProof.RoundTripMsg | lib/core/ogs-tlv-msg.c:98-680 | A message built and then parsed under the same descriptors into a zeroed struct gives back every field reached, with its value, and no other, at any nesting, in each of the five header formats that can carry it, whatever lies behind the packet; the one without a length byte carries fields without bytes |
| TlvMsgGaps.GapFreeReach | lib/core/ogs-tlv-msg.c:224-332 | Building reaches every present field if and only if repeated fields have no gaps |
| TlvMsgGaps.FieldsInOrder | lib/core/ogs-tlv-msg.c:224-332 | The fields built follow the order of their descriptors, and copies of one field that of their addresses |
| TlvMsgGaps.BuiltInOrder | lib/core/ogs-tlv-msg.c:224-332 | Each node built is the one of the field at its place, with the type and instance of its descriptor |
| TlvMsgEnds.ComesBack | lib/core/ogs-tlv-msg.c:98-680 | A message comes back with exactly the fields it has if and only if its repeated fields have no gaps |
| TlvMsgEnds.FailureLeaks | lib/core/ogs-tlv-msg.c:345-346 | A failed build has taken no node only when its first field is a variable string without bytes |
| TlvMsgEnds.GapLost | lib/core/ogs-tlv-msg.c:249-288 | A message whose second of three copies is missing comes back, in every format, without the third |
| TlvMsgLeaf.LeafExactly | lib/core/ogs-tlv-msg.c:402-505 | A field without members takes exactly the elements of its length, or of at most its length for a number; it is then marked and has the element's bytes as its value, and no other field changes; otherwise nothing does |
| TlvMsgLeaf.SettledExactly | lib/core/ogs-tlv-msg.c:402-505 | What is stored for an element that is taken depends on its own bytes alone if and only if it is not a number shorter than its field |
| TlvMsgLeaf.SentTaken | lib/core/ogs-tlv-msg.c:171-222 | A field takes the element its own value is sent in, also when a fixed string has more bytes than its descriptor says |
| TlvMsgSkips.SkipsUnknown | lib/core/ogs-tlv-msg.c:577-588 | Elements of which no descriptor has the type and instance change nothing, as long as there are at most 128 types and instances in the block |
| TlvMsgSkips.TooManyFail | lib/core/ogs-tlv-msg.c:542-583 | A block of more than 128 types and instances is never accepted, known or not |
| TlvMsgSkips.FirstWins | lib/core/ogs-tlv-msg.c:580-588 | Of several elements for a field that is not repeated the first is taken: each later one may be left out without a change |
| TlvMsgSkips.NewerPeer | lib/core/ogs-tlv-msg.c:555-654 | The packet of a peer with more descriptors, whose unknown elements stand anywhere among the known ones and at any depth, gives the same struct as the packet without them |
| TlvMsgSkips.StrangersSkipped | lib/core/ogs-tlv-msg.c:585-588 | A packet with two unknown elements, one of them nested, gives the number 7 at its place in the struct |
| TlvMsgAccepts.ParsesExactly | lib/core/ogs-tlv-msg.c:555-680 | A packet that does not stop the program is accepted if and only if it parses as a block, the block has at most 128 types and instances, and every element parsed as a field has a length the field takes, or holds a block for which, at every depth, the same is true |
| TlvMsgAborts.AbortsExactly | lib/core/ogs-tlv-msg.c:368-654 | Some packet stops the program if and only if a repeated field is in the table or in that of a compound that headers of the format can name; when they can name all of it, if and only if there is a repeated field at any depth |
| TlvMsgAborts.NeverAborts | lib/core/ogs-tlv-msg.c:555-654 | Without repeated fields no packet stops the program |
| TlvMsgAborts.ZeroAborts | lib/core/ogs-tlv-msg.c:368-399 | With a repeated field in the table every block that begins with type 0 and instance 0 does |
| TlvMsgAborts.OneTooMany | lib/core/ogs-tlv-msg.c:595-606 | An element of a repeated field stops the program if and only if all its copies are present |
| TlvMsgAborts.CopiesPacket | lib/core/ogs-tlv-msg.c:595-606 | A packet of copies of one repeated leaf stops it if and only if there are more of them than the message has room for |
| TlvMsgAborts.ExtraCopy | lib/core/ogs-tlv-msg.c:604-606 | Two empty strings where there is room for one do |
| TlvRebuild.RebuildsSame | lib/core/ogs-tlv-msg.c:118-170 | A second build of the same struct sends a packet of the same length, and the same packet if and only if every number reached has bytes that read the same backwards |
| TlvRebuild.SentReversed | lib/core/ogs-tlv-msg.c:118-170 | A number that has been swapped is sent with its bytes reversed |
| TlvRebuild.SecondDiffers | lib/core/ogs-tlv-msg.c:125 | Of a struct with the 16-bit number 1 the second packet is another |
| TlvBuild.BuildPacket | lib/core/ogs-tlv-msg.c:334-366 | The packet is the encoding of the message as it was before the build, the struct's numbers end up byte-swapped, every node is free again; on failure exactly the nodes taken so far are missing; it stops the program if and only if there are fewer free nodes than it takes |
| TlvBuild.AddCompound | lib/core/ogs-tlv-msg.c:224-332 | The loop over descriptors and copies, with its own running offsets, builds one linked node for each field the specification lists, and counts them |
| TlvBuild.AddLeaf | lib/core/ogs-tlv-msg.c:98-222 | A leaf is added with the bytes of its value in network order, or not at all |
| TlvBuild.StoredShows | lib/core/ogs-tlv-msg.c:118-170 | The bytes of a number swapped in place on a little-endian host are its network bytes, in 1 to 4 bytes |
| TlvParse.ParsePacket | lib/core/ogs-tlv-msg.c:656-680 | Parsing in place gives the verdict and the struct the specification gives, and when it returns, failed or not, every node is free again; it stops the program if and only if the specification does or there are fewer free nodes than elements to read |
| TlvParse.FindDesc | lib/core/ogs-tlv-msg.c:368-399 | The descriptor search, with the parser's own count of offsets, finds the n-th descriptor with this type and instance |
| TlvParse.LocateField | lib/core/ogs-tlv-msg.c:580-612 | Where an element goes: its descriptor, its address, the first free copy of a repeated field, or why it goes nowhere |
| TlvExchange.Exchange | lib/core/ogs-tlv-msg.c:334-680 | Builder and parser one after the other, in place: the second struct has exactly the fields reached of the first as they were, and no node is lost |
| HashKey.HashDefault | lib/core/ogs-hash.c:199-257 | The hash is the times-33 hash of the key's bytes in 32 bits; the length found is the one given, or for a string the place of its first zero byte |
| HashKey.Times33Is | lib/core/ogs-hash.c:199-257 | That hash is the seed and the bytes times powers of 33, the last byte times 1, added up modulo 2^32 |
| HashKey.ExplicitKeys | lib/core/ogs-hash.c:250-254 | A key of an explicit length has all its bytes, zero bytes included: two of the same length are one key if and only if all their bytes are the same |
| HashKey.StringIsBytes | lib/core/ogs-hash.c:244-254 | A string key and the same bytes with their length are one key |
| HashKey.AndMask | lib/core/ogs-hash.c:190 | Masking with max, which is one less than a power of two, is the remainder by the number of buckets |
| HashKey.AndBelow | lib/core/ogs-hash.c:276 | The bucket of a hash is inside the array |
| Hash.Table.Get | lib/core/ogs-hash.c:303-317 | The value of the key in the map, or nothing |
| Hash.Table.Set | lib/core/ogs-hash.c:319-347 | The table refines a finite map: a value is stored or replaced, no value deletes the key, no other binding changes, and the count stays at most max |
| Hash.Table.GetOrSet | lib/core/ogs-hash.c:349-369 | An existing value is returned and kept, otherwise the new one is stored |
| Hash.Table.ExpandArray | lib/core/ogs-hash.c:181-197 | Doubling the array while iterating over it relinks every entry into its new bucket and changes no binding |
| Hash.Table.Next | lib/core/ogs-hash.c:117-130 | The iterator gives the next of the entries still to be visited, and nothing when none is left |
| Hash.Table.Sweep | lib/core/ogs-hash.c:117-145 | A walk that deletes any of the entries it is at meets every key present at the start exactly once, and leaves the others |
| Hash.Table.Clear | lib/core/ogs-hash.c:377-385 | Clearing stops the program if and only if the empty key is stored; otherwise the map is empty and every entry is on the recycle list |
| Hash.EmptyKeyAborts | lib/core/ogs-hash.c:383-384 | Storing an empty string and clearing does stop it |
| Hash.KeysApart | lib/core/ogs-hash.c:303-347 | Storing under one key of a given length changes what is found under another of that length if and only if their bytes are the same |
| HashIter.EndMoving | lib/core/ogs-hash.c:189-196 | When every entry has been moved, the table is sound with the same map, and max is again one less than a power of two |
| HashIter.EachOnce | lib/core/ogs-hash.c:117-145 | The buckets together list each entry of a key once, and no recycled entry |
| QueueRing.Buffer.Put | lib/core/ogs-queue.c:151-155 | Storing appends to the queue's contents |
| QueueRing.Buffer.Take | lib/core/ogs-queue.c:245-250 | Taking removes the first of them |
| QueueRing.InIs | lib/core/ogs-queue.c:151-155 | The in index is (out + count) mod bound |
| QueueSpec.Queue.EnterPush | lib/core/ogs-queue.c:116-155 | What a push does under the mutex up to the wait, the signal or the unlock |
| QueueSpec.Queue.ResumePush | lib/core/ogs-queue.c:132-155 | The same after the wait |
| QueueSpec.Queue.EnterPop | lib/core/ogs-queue.c:211-250 | What a pop does under the mutex |
| QueueSpec.Queue.ResumePop | lib/core/ogs-queue.c:227-250 | The same after the wait |
| QueueResults.SectionTells | lib/core/ogs-queue.c:116-258 | The section of a push lands with OGS_OK if and only if its element was appended, that of a pop with an element if and only if that one was taken, and one of them happens exactly when the queue can take it; a blocked call without a timeout leaves the queue as it was and answers OGS_RETRY, any other waits, and after the wait reports a timeout or an error |
| QueueResults.CallTells | lib/core/ogs-queue.c:106-258 | Over every interleaving, from call to return: OGS_OK if and only if exactly this element was stored, an element if and only if exactly that one was taken, and any other result if and only if nothing was; OGS_DONE only when the queue is terminated, OGS_ERROR only when it is not |
| QueueResults.RetryExactly | lib/core/ogs-queue.c:117-119 | A call without a timeout answers OGS_RETRY if and only if the queue could not take it when the call held the mutex |
| QueueLaws.RunInv | lib/core/ogs-queue.c:106-300 | In every state of every interleaving: one holder of the mutex at most, the waiter counters count the waiting threads, and the queue holds what was pushed and not yet popped |
| QueueLaws.RunHeard | lib/core/ogs-queue.c:157-160 | No lost wakeup: while a thread sleeps, what its side could take never exceeds the threads already on their way to it, and dually, in every state of every run, unless timed waits can swallow signals |
| QueueLaws.LostWakeup | lib/core/ogs-queue.c:217-231 | A run in which one swallows the signal, and a popper sleeps on with an element queued and everybody else gone |
| QueueLaws.HeardExactly | lib/core/ogs-queue.c:106-258 | Wakeups are never lost if and only if timed waits cannot swallow signals or are not used |
| QueueEnd.RunFifo | lib/core/ogs-queue.c:106-258 | Bounded FIFO over every interleaving: what was popped is a prefix of what was pushed, the queue holds the rest, its count is between 0 and the bound |
| QueueEnd.TakesNext | lib/core/ogs-queue.c:245-257 | A pop that succeeds takes the next element in the order of the pushes and returns it |
| QueueEnd.ResultKept | lib/core/ogs-queue.c:251-257 | Nothing another thread does changes a result once obtained |
| QueueEnd.NobodySleeps | lib/core/ogs-queue.c:275-300 | Once a call of ogs_queue_term has returned, no thread is asleep, then or ever after |
| QueueEnd.LateFails | lib/core/ogs-queue.c:110-206 | A thread outside when the queue is terminated never performs an operation again: in every later state its calls end at once with OGS_DONE and change nothing else |
| QueueEnd.WindsDown | lib/core/ogs-queue.c:275-300 | After termination, and without new calls, the threads still inside need a bounded number of steps |
| QueueEnd.CanMove | lib/core/ogs-queue.c:275-300 | And until they are all outside, one of them can take a step |
| Pkbuf.PkbufPool.PkbufAlloc | lib/core/ogs-pkbuf.c:200-267 | Allocation is the specified one, with its three outcomes; the packet buffer handed out is empty, has room for exactly the size asked for, in a cluster of its own of the smallest class that is large enough |
| Pkbuf.PkbufPool.PkbufFree | lib/core/ogs-pkbuf.c:269-295 | Release is the specified one |
| Pkbuf.PkbufPool.PkbufCopy | lib/core/ogs-pkbuf.c:297-347 | Copy is the specified one |
| PkbufProof.AllocKeeps | lib/core/ogs-pkbuf.c:224-265 | Exactly when an allocation succeeds, fails or stops the program; a success is empty with room for exactly the size asked for, in a cluster of its own whose class is the smallest that is large enough, and leaves the other packet buffers alone; a failure leaves one cluster behind |
| PkbufProof.CopyKeeps | lib/core/ogs-pkbuf.c:323-343 | A copy is one more user of the same cluster, and a failed copy changes nothing |
| PkbufProof.FreeKeeps | lib/core/ogs-pkbuf.c:274-293 | The cluster goes back, and its buffer to the pool of its own size class, exactly when the packet buffer was its last user |
| PkbufProof.RunKeeps | lib/core/ogs-pkbuf.c:200-434 | Over every run the reference count of each cluster is the number of packet buffers that point at it, and one cluster is lost for each failed allocation |
| PkbufProof.FullAgain | lib/core/ogs-pkbuf.c:200-434 | Once all packet buffers are freed, all pools are full again if and only if no allocation failed |
| PkbufProof.ClusterLost | lib/core/ogs-pkbuf.c:357-363 | With one cluster and no small buffer, a small request fails and a larger one, which would have succeeded before, then stops the program |
| PkbufProof.Apart | lib/core/ogs-pkbuf.c:350-396 | Packet buffers with different clusters use different memory |
| Mul64.MUL64 | lib/crypt/snow-3g.c:484-495 | The loop computes the sum of the multiples selected by the second factor's bits |
| Mul64.IsRemainder | lib/crypt/snow-3g.c:451-495 | MUL64 is the remainder of the product of polynomials over GF(2) by x^64 + c, and nothing else is |
| Mul64.Distributes | lib/crypt/snow-3g.c:484-495 | It is bilinear over XOR |
| Mul64.Commutes | lib/crypt/snow-3g.c:484-495 | It is commutative |
| Mul64.Associates | lib/crypt/snow-3g.c:484-495 | It is associative |
| Gf2.Unique | lib/crypt/snow-3g.c:451-457 | A polynomial has one remainder of lower degree |
| F9.Mac | lib/crypt/snow-3g.c:554-603 | For every non-empty message the code is the evaluation that section 4 of 3GPP TS 35.215 defines: the blocks times powers of P, plus the length, times Q, and the first 32 bits of it plus z_5 |
| F9.BitsAre | lib/crypt/snow-3g.c:592 | The length enters as the polynomial of its binary digits |
| F9.CIsBits | lib/crypt/snow-3g.c:560 | The modulus constant is the word 0x1b |
| F9.TurnsExact | lib/crypt/snow-3g.c:555-563 | In 32-bit arithmetic the loop takes one turn less than there are blocks if and only if the message is not empty |
| F9.Horner | lib/crypt/snow-3g.c:563-570 | A turn of the loop multiplies the sum of blocks times powers, with the next block added, by P |
| F9.LastBlock | lib/crypt/snow-3g.c:572-588 | The last block is the rest of the message with zeros behind it, for any number of bits |
| F9.OnlyMessage | lib/crypt/snow-3g.c:572-588 | Bits behind the end of the message change nothing |
| Sha256.Digest | lib/crypt/ogs-sha2.c:348-445 | However a message under 2^29 bytes is cut into updates, the digest is the fold of the compression function over the message padded as sections 5.1.1 and 6.2.2 of FIPS 180-2 say |
| Sha256.Context.Update | lib/crypt/ogs-sha2.c:375-407 | An update absorbs its bytes, at any fill of the block; when its length wraps with the bytes waiting, it absorbs nothing |
| Sha256.Context.Final | lib/crypt/ogs-sha2.c:409-445 | The digest is the fold over everything absorbed and one or two closing blocks |
| Sha256.TailIsPadding | lib/crypt/ogs-sha2.c:419-427 | The closing bytes are the standard's padding if and only if the message is under 2^29 bytes |
| AesCounter.Inc | lib/crypt/ogs-aes.c:1369-1379 | The byte-wise step adds one modulo 2^128, high byte first |
| AesCounter.IncAligned | lib/crypt/ogs-aes.c:1381-1405 | The word-wise step, on words of four or eight bytes, with its carry from the top bits, does the same on either kind of host |
| AesCounter.IncWords | lib/crypt/ogs-aes.c:1397-1404 | The loop over the words adds one to the number they spell, in any even base |
| AesCtr.Encrypt | lib/crypt/ogs-aes.c:1407-1458 | Blockwise encryption, also in place, gives the counter-mode text of section 6.5 of NIST SP 800-38A: each byte under what the cipher makes of the counter of its block, the first of them the initial counter itself; and the counter behind the last block, for every length |
| AesCtr.Reference | lib/crypt/ogs-aes.c:1460-1471 | The byte-by-byte loop kept below the return gives the same bytes and the same counter |
| AesCtr.CtrIs | lib/crypt/ogs-aes.c:1436-1455 | The text defined by the key stream is the one in which every byte is encrypted by the cipher of any sixteen bytes that spell the initial counter plus the number of its block |
| AesCtr.Restores | lib/crypt/ogs-aes.c:1407-1458 | Encrypting twice from the same counter restores the text |
| AesCtr.Continues | lib/crypt/ogs-aes.c:1407-1458 | A text may be cut after whole blocks and continued with the counter left |

## Left out

- Sockets, polling, processes, signals, logging, YAML, MongoDB, the web interface: operating system and library glue.
- The `OGS_USE_TALLOC` branches: pools and packet buffers are modelled for `OGS_USE_TALLOC == 0`; the shipped build sets it to 1 (lib/core/ogs-core.h:27).
- AES, KASUMI and SNOW 3G rounds, S-boxes and the SHA-256 compression function: parameters of the model.
- HMAC, key derivation, Milenage, base64, BCD, calendar and getopt code: easier than what is here.
- Memory exhaustion of `malloc`; the clock, which is a parameter; overflow of 64-bit times; the unsigned limits of a hash table's count and max.
- `ogs_assert` on arguments: preconditions, except where a run can reach it, which is an outcome of its own.
- Expiry.Expire: callbacks that delete or restart other timers already collected are outside its precondition; callbacks are given as lists of operations.
- TV field types without a length byte, and `ogs_tlv_parse_msg_desc`, which uses a second parser: not part of this model.
- Nodes of the TLV store, entries of the hash table and timers are named by their slots; the value of a TLV node is captured when it is added, and the count tree of the TLV parser is a map.
- TlvBuild.BuildPacket: the headroom in front of the packet and the packet buffer it is put in are left out; hosts are little-endian.
- TlvBuild.AddLeaf: of a fixed string with fewer bytes than its descriptor says, what the source reads behind it is not modelled.
- TlvMsgProof.RoundTripMsg: asks that lengths, types and instances fit their header fields, that compounds are not empty, and that the values fit their fields, as the wire format does.
- The descriptor tables generated by the repository's scripts: any table with distinct sibling types and instances is covered.
- Hash keys are values: their memory must not change while they are stored.
- Pkbuf.PkbufPool.PkbufAlloc: what is written through the pointers into a buffer is not modelled, only which buffer it is.
- The queue's fairness and progress while it is not terminated depend on the scheduler and are not stated.
- F9.Mac: the key schedule and key stream before it, and messages of more than 2^35 bits, whose byte index does not fit in 32 bits.
- Sha256.Context.Final: the bytes of the digest, which are the words of the chaining value, high byte first.
