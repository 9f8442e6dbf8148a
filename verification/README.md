# dmrlib: a verified model

This project models the stateful cores of dmrlib, a library for Digital Mobile Radio, and proves
what they promise. `dafny verify dfyconfig.toml` checks all of it.

- **Search trees and the identifier map.** `RbTree`, `RbRemove` and `RbSearch` are the red-black tree of
  `tree.h` on heap nodes with child and parent links and colours. `RbSpec` describes a tree with one
  hole (a context, from the hole outwards), `RbFixup` what each recolouring and each rotation does to
  the one violation in that hole, `RbOrder` keys and heights, `RbCost` the numbers of turns. `IdMap` is
  the map from radio identifiers to names. `Splay` and `SplaySpec` are the top-down splay tree,
  `SplayCost` and `SplayAccount` are its amortized analysis. The comparator puts the larger identifier
  first. The two mirrored halves of every operation are one method that takes a `Side`.
- **Checksums.** `Crc` runs the shift registers of CRC-9, CRC-16 and CRC-32 (sections B.3.8 to B.3.10 of
  ETSI TS 102 361-1) bit by bit on words of their real width; `CrcSpec` is the shift register of any
  width, `CrcDivision` division of polynomials over the two-element field, `CrcParity` the parity of messages and
  registers.
- **Queues and buffers.** `TailQueue` is the tail queue with its pointers to pointers; `Deque` and
  `QueueUsers` are the bounded queue of raw buffers and the packet queue; `Raw` and `RawBytes` are the growable
  byte buffer.
- **Event loop.** `IoTime` computes how long to sleep, `IoSpec` is the effect of every registration and
  deletion. `IoPass` says what a pass over a list does, told from the list at its beginning, and proves
  that the walk along a list that callbacks change (`IoWalk`) does just that; `IoRound` puts passes
  together to rounds. `Io` is the loop, and its contracts determine the whole state; `IoLaws`, `IoCalls`
  and `IoQuiet` are what follows. A callback is any sequence of requests to the loop.
- **Call once.** `CallOnce` is the spin-then-lock protocol for any number of threads.
- **Voice frames.** `Vocoder` and `VocoderSpec` are the concealment of bad frames.

Things that hold only under a condition, with the condition:

- A one-time error entry clears a bit in the set of writers (src/dmr/io.c:123). The set of errors keeps
  an entry behind each of its members exactly when the served descriptor was not in it or has another
  entry (`IoLaws.ErrorBacked`). Every write entry stays watched exactly when none of them is for that descriptor
  (`IoLaws.ErrorForgetsWriters`). `IoLaws.WrongSet` is a run in which both fail.
- Deleting one of two entries for a descriptor, or serving a one-time one, stops the watch for the other; it does
  so exactly then (`IoLaws.DeleteWatched`, `IoLaws.RetireWatched`), and `IoLaws.DeletedTwin` and
  `IoLaws.ServedTwin` are concrete runs.
- A callback that deletes the entry being served or the one saved as next sends the walk through freed memory.
  Otherwise, and only otherwise, a pass is completed (`Io.Loop.Walk`). `IoLaws.SelfDeletingReader` and
  `IoLaws.SelfDeletingWriter` are runs that break.
- `dmr_crc9` called with bit length 8, as src/dmr/payload/data.c:184 does for every payload byte, ignores
  the byte (`Crc.Crc9Distinguishes`, `Crc.PayloadIgnored`).
- Data headers call `dmr_crc16_finish` once (src/dmr/payload/data.c:66). The message with such a sum, as
  it is before inversion and mask, clears the register exactly when the register before that call is 0
  or 0xf01f (`Crc.Crc16SingleFinish`); a header of nine zero bytes and a one is an input for which it
  does not (`Crc.HeaderNotCleared`).
- `dmr_raw_add_uint32_le`, documented as little-endian, writes the most significant byte first
  (`RawBytes.SwappedIsBigEndian`), so it does what it says only for words that read the same both ways
  (`RawBytes.SwappedIsLittleEndianIff`), not for 1 (`RawBytes.OneIsNotLittleEndian`).
- After a fourth concealed voice frame the output is muted, but the fifth is heard again, made from the
  initial parameters (`VocoderSpec.HeardAgain`).

## Model

| member | source | states |
|---|---|---|
| `RbTree.Head.Rotate` | include/dmr/tree.h:340-378 | a rotation at any place of a linked tree gives exactly the rotated tree in that place, with all parent links right, for both directions |
| `RbTree.Head.InsertColor` | include/dmr/tree.h:405-447 | from a tree whose only fault is one red node that may have a red parent, the loop ends in a proper red-black tree with the same in-order node sequence; the number of its turns, exactly, and that it is at most half the levels above the node |
| `RbTree.Head.Descend` | include/dmr/tree.h:601-611 | the search ends at the node with the key or in the one hole where the key fits; the number of nodes compared, exactly, and 2^(that number) is at most (n+1)^2 |
| `RbTree.Head.Insert` | include/dmr/tree.h:594-623 | a new key joins the set of nodes of a valid tree and the tree stays valid; a present key returns its node and changes nothing; the exact numbers of comparisons and of turns of the fix-up, which are logarithmic |
| `RbTree.Head.RemoveColor` | include/dmr/tree.h:449-525 | from a tree in which one place is a black node short, the loop ends in a proper red-black tree with the same in-order node sequence; the number of its turns, exactly, and that it is at most the number of levels above the place |
| `RbRemove.Remove` | include/dmr/tree.h:527-592 | removing any node of a valid tree leaves a valid tree with exactly the other nodes; the exact numbers of steps to the successor and of turns of the fix-up, which are logarithmic |
| `RbRemove.RemoveThin` | include/dmr/tree.h:532-535 | the case of a node with at most one child; fewer turns than the tree has levels |
| `RbRemove.RemoveFull` | include/dmr/tree.h:536-575 | the case of two children: the successor, possibly the right child itself, takes over place, links and colour; fewer steps and turns than the tree has levels |
| `RbRemove.Successor` | include/dmr/tree.h:538-540 | the leftmost node of the right subtree, in as many steps as it lies below its top |
| `RbFixup.RecolorUp` | include/dmr/tree.h:413-419 | recolouring with a red uncle moves the violation two levels up and keeps order and black counts |
| `RbFixup.Straighten` | include/dmr/tree.h:420-425 | the inner rotation keeps the violation in place and turns it outwards |
| `RbFixup.RotateAway` | include/dmr/tree.h:426-427 | the last rotation of an insertion removes the violation |
| `RbFixup.LowerRedSibling` | include/dmr/tree.h:457-461 | a red sibling is rotated up and the shortage stays where it was, one level lower |
| `RbFixup.DarkenSibling` | include/dmr/tree.h:462-468 | recolouring the sibling moves the shortage to the parent |
| `RbFixup.TurnSiblingColors` | include/dmr/tree.h:470-479 | the rotation at the sibling keeps the shortage and gives the sibling a red outer child |
| `RbFixup.RotateShortage` | include/dmr/tree.h:480-486 | the last rotation of a removal ends the shortage |
| `RbRemove.DropNode` | include/dmr/tree.h:576-590 | unlinking a node leaves a red-black tree, or a shortage in its place exactly when it was black |
| `RbRemove.DropSuccessor` | include/dmr/tree.h:538-556 | the same for the spliced successor, with the colour of the removed node given to it |
| `RbOrder.HeightBound` | include/dmr/tree.h:51-59 | every red-black tree with n nodes and height h has 2^h <= (n+1)^2 |
| `RbSearch.Find` | include/dmr/tree.h:625-641 | returns the node with the key if and only if there is one; the exact number of comparisons, which is logarithmic |
| `RbSearch.NFind` | include/dmr/tree.h:643-662 | returns a node not before the key that comes before every other such node, and nothing if and only if all are before the key; logarithmically many comparisons |
| `RbSearch.MinMax` | include/dmr/tree.h:708-721 | the first or the last node of the in-order sequence, in logarithmically many steps |
| `RbSearch.Neighbour` | include/dmr/tree.h:664-706 | the next or the previous node of the in-order sequence, found through child and parent links in logarithmically many steps |
| `RbCost.NextToll` | include/dmr/tree.h:664-684 | the links followed to the next node are two more than the gain in links to the left less links to the right |
| `RbSearch.Walk` | include/dmr/tree.h:735-738 | the iteration ends, visits every node exactly once in order, and so in strictly descending identifiers, and follows exactly two links for every node |
| `IdMap.Add` | src/dmr/id.c:27-42 | refines adding to a finite map: an absent identifier gets the name, everything else changes nothing; success for a present identifier, the error codes for a missing name and a failed allocation |
| `IdMap.Get` | src/dmr/id.c:44-54 | lookup in that finite map |
| `IdMap.FirstNameWins` | src/dmr/id.c:27-54 | after any sequence of additions an identifier has a name if and only if some addition could deliver one, and it is that of the first |
| `IdMap.CountNames` | src/dmr/id.c:88-100 | the number of nodes is the number of distinct identifiers |
| `IdMap.Shared.Init` | src/dmr/id.c:56-63 | the shared map is created once, empty, and never replaced |
| `IdMap.Shared.AddName` | src/dmr/id.c:72-78 | adding to the shared map, created on first use; what was not there before is new |
| `IdMap.AddAllNames` | src/dmr/id.c:72-78 | any sequence of additions to the shared map gives the finite map after that sequence |
| `IdMap.Shared.Name` | src/dmr/id.c:80-86 | lookup in the shared map |
| `IdMap.Shared.Size` | src/dmr/id.c:88-100 | the walk counts exactly the names |
| `Splay.Head.RotateUp` | include/dmr/tree.h:85-96 | the rotation at the root keeps the in-order sequence |
| `Splay.Head.Link` | include/dmr/tree.h:98-108 | hanging the root on one of the two side trees keeps the total sequence |
| `Splay.Head.Assemble` | include/dmr/tree.h:110-115 | the final assembly gives one proper tree out of the two side trees and the middle |
| `Splay.Head.Splay` | include/dmr/tree.h:207-240 | any non-empty ordered tree keeps its in-order node sequence, and the new root splits it at the key; the exact tree and number of turns, which is at most 6 log2(n) + 2 plus twice the loss of potential |
| `SplayCost.LinkLedger` | include/dmr/tree.h:226-236 | a turn without rotation is paid for by the loss of rank, or can stay owing one that the next turn must gain |
| `SplayCost.ZigLedger` | include/dmr/tree.h:221-226 | a turn with rotation is paid for by the loss of rank of the middle tree |
| `SplayCost.AssembledCost` | include/dmr/tree.h:239-239 | the assembled tree has at most the potential of the splay under way and the rank of the whole |
| `Splay.Head.TakeOver` | include/dmr/tree.h:197-200 | the left half, splayed to its last node, takes over the right half; all nodes but the removed one stay |
| `SplayAccount.PaidRemove` | include/dmr/tree.h:197-200 | a removal, with its second splay, stays within the account |
| `Splay.Session` | include/dmr/tree.h:47-49 | the Balance Theorem: any sequence of m operations from the empty tree, with at most n nodes at a time, takes at most m (14 log2(n) + 4) turns |
| `SplaySpec.SplitLookup` | include/dmr/tree.h:132-134 | in a tree split at a key only the root can have the key |
| `SplaySpec.SplitNeighbour` | include/dmr/tree.h:216-238 | the root of a split tree is the key, its immediate predecessor or its immediate successor |
| `Splay.Head.Find` | include/dmr/tree.h:125-135 | returns the node with the key if and only if there is one; enters the turns of its splay in the account, and keeps it |
| `Splay.Head.Insert` | include/dmr/tree.h:162-184 | the node joins the set, or the node that has its key is returned and the sequence is unchanged; enters its turns in the account, and keeps it |
| `Splay.Head.NewRoot` | include/dmr/tree.h:171-182 | the new node over the two halves of the split tree |
| `Splay.Head.Remove` | include/dmr/tree.h:186-205 | exactly the node with the key leaves the set, or nothing changes; enters the turns of both splays in the account, and keeps it |
| `Crc.Crc9` | src/dmr/crc.c:4-22 | the register after a call is the division of the bits that the moved mask meets; the upper seven bits are zero |
| `Crc.Crc9Finish` | src/dmr/crc.c:25-36 | equals feeding that many zero bits |
| `Crc.Crc16` | src/dmr/crc.c:38-53 | the register after a call is one division step for each bit of the byte, most significant first |
| `Crc.Crc16Finish` | src/dmr/crc.c:56-67 | one call equals feeding one zero byte |
| `Crc.Crc32` | src/dmr/crc.c:69-84 | the register after a call is one division step for each bit of the byte, most significant first |
| `Crc.Crc32Finish` | src/dmr/crc.c:87-98 | one call equals feeding one zero byte |
| `Crc.Crc16All` | src/dmr/payload/data.c:63-65 | a loop of calls over any bytes is the division of all their bits |
| `Crc.Crc32All` | src/dmr/crc.c:69-84 | the same for CRC-32 |
| `Crc.Crc9All` | src/dmr/payload/data.c:183-185 | the same for CRC-9, for the bits that the moved mask meets |
| `Crc.MessageAt` | src/dmr/payload/data.c:63-65 | the bits of a message are those of its bytes in order, most significant first |
| `Crc.HeaderCrc` | src/dmr/payload/data.c:59-70 | the sum of a data header: division of all its bits from zero, one finish call, and then, bit by bit, inversion of the last two of every four bits, which is what inversion and the mask 0xcccc come to |
| `Crc.HeaderSumsDiffer` | src/dmr/payload/data.c:59-70 | two headers have the same sum if and only if they leave the same register |
| `CrcDivision.RegisterIsRemainder` | src/dmr/crc.c:38-98 | from zero, for messages of any length, a word is the register if and only if it is the remainder of the message polynomial modulo the generator |
| `CrcDivision.RunDivides` | src/dmr/crc.c:38-53 | register and message are quotient times generator plus new register, from any start |
| `CrcDivision.RemainderUnique` | src/dmr/crc.c:38-53 | quotient (as a polynomial) and remainder modulo a generator are unique |
| `CrcSpec.RunInjective` | src/dmr/crc.c:38-53 | with a constant term in the generator different registers stay different under the same input |
| `Crc.Exponents` | src/dmr/crc.c:4-98 | the exponents of the three generators: 6, 4, 3, 0 below x^9, 12, 5, 0 below x^16, and the fourteen below x^32 |
| `CrcSpec.BurstDetected` | src/dmr/crc.c:38-98 | two messages that differ within a window no wider than the register end differently, whatever comes before and after |
| `Crc.Crc16Bursts` | src/dmr/crc.c:38-53 | all bursts of at most 16 bits are detected |
| `Crc.Crc32Bursts` | src/dmr/crc.c:69-84 | all bursts of at most 32 bits are detected |
| `CrcParity.OddErrorsDetected` | src/dmr/crc.c:38-98 | with a generator of an even number of terms, messages that differ in an odd number of places, wherever these are, end differently |
| `Crc.Crc16OddErrors` | src/dmr/crc.c:38-53 | this is so for CRC-16 |
| `Crc.Crc16OwnChecksum` | src/dmr/crc.c:38-67 | a message followed by its checksum from two finish calls, high byte first, leaves zero |
| `Crc.Crc32OwnChecksum` | src/dmr/crc.c:69-98 | a message followed by its checksum from four finish calls leaves zero |
| `CrcSpec.OnlyChecksum` | src/dmr/crc.c:38-98 | no other word of that width does |
| `Crc.Crc16SingleFinish` | src/dmr/crc.c:56-67 | after one finish call, message and register clear the register if and only if it was 0 or 0xf01f before that call |
| `Crc.FixedWords` | src/dmr/crc.c:56-67 | these two words, and no others, come through a finish call unchanged |
| `Crc.HeaderNotCleared` | src/dmr/payload/data.c:59-66 | a header whose sum, before inversion and mask, does not clear the register |
| `Crc.Crc9Distinguishes` | src/dmr/crc.c:4-22 | one call tells two bytes apart if and only if they differ below the skipped bits |
| `Crc.PayloadIgnored` | src/dmr/payload/data.c:183-185 | with bit length 8 a payload of any content feeds zeros only |
| `CallOnce.StepKeepsInv` | src/dmr/thread.c:927-957 | every step of every thread keeps the invariant that ties status, lock and places of all threads together |
| `CallOnce.CalledOnce` | src/dmr/thread.c:927-957 | in every reachable state with any number of callers: at most one start, one lock creation, no use before it, mutual exclusion, and no caller has returned before the callback finished |
| `CallOnce.StepRank` | src/dmr/thread.c:934-956 | no step of any thread takes the end further away, and every step of a thread that is not spinning or blocked brings it nearer |
| `CallOnce.FairRunsEnd` | src/dmr/thread.c:934-956 | after any beginning, any schedule that gives each of n callers a turn in each of 5n+7 rounds ends with all returned: no livelock, no lost waiter |
| `TailQueue.Queue.Init` | include/dmr/queue.h:462-465 | the empty queue |
| `TailQueue.Queue.InsertHead` | include/dmr/queue.h:467-475 | the link invariant is kept and the entry is put in front |
| `TailQueue.Queue.InsertTail` | include/dmr/queue.h:477-482 | the link invariant is kept and the entry is appended |
| `TailQueue.Queue.InsertAfter` | include/dmr/queue.h:484-492 | the link invariant is kept and the entry is put after a given one |
| `TailQueue.Queue.InsertBefore` | include/dmr/queue.h:494-499 | the same before a given entry, without use of the head |
| `TailQueue.Queue.Remove` | include/dmr/queue.h:501-510 | the link invariant is kept and exactly that position is dropped |
| `TailQueue.Queue.Replace` | include/dmr/queue.h:512-522 | the link invariant is kept and exactly that position is exchanged |
| `TailQueue.Queue.Concat` | include/dmr/queue.h:524-531 | the second queue is appended and left empty, both valid |
| `TailQueue.Queue.Last` | include/dmr/queue.h:428-429 | reading two pointers through the last one gives the last entry |
| `TailQueue.Queue.Prev` | include/dmr/queue.h:431-432 | the same from an entry gives the previous one, or nothing |
| `QueueUsers.RawQueue.Add` | src/dmr/raw.c:199-211 | refines adding to a bounded double-ended queue: accepted and appended exactly without limit or below it, refused and unchanged otherwise |
| `QueueUsers.RawQueue.Unshift` | src/dmr/raw.c:263-275 | refines putting in front of a bounded double-ended queue, likewise |
| `QueueUsers.RawQueue.Shift` | src/dmr/raw.c:251-261 | refines taking from the front: the first buffer, or nothing exactly when there is none |
| `QueueUsers.RawQueue.Size` | src/dmr/raw.c:238-249 | the walk counts the entries |
| `Deque.Accepting` | src/dmr/raw.c:199-275 | a buffer comes in at either end exactly without limit or below it, and goes out exactly when there is one |
| `Deque.RunBounded` | src/dmr/raw.c:199-275 | no run of calls exceeds a limit other than zero |
| `Deque.Refused` | src/dmr/raw.c:199-275 | a call leaves the queue as it was if and only if it is refused or finds it empty |
| `Deque.RunConserves` | src/dmr/raw.c:199-275 | over any run, what was there and came in is what went out and is there |
| `Deque.RunFifo` | src/dmr/raw.c:199-261 | over any run without unshift, the same in order |
| `Deque.PutBack` | src/dmr/raw.c:251-275 | a shifted buffer can always be put back, and the queue is then as it was |
| `QueueUsers.PacketQueue.Add` | src/dmr/packetq.c:17-31 | everything added is everything shifted followed by everything queued, with the packet at the end |
| `QueueUsers.PacketQueue.Shift` | src/dmr/packetq.c:49-64 | the same law, with the first packet handed out, or none |
| `QueueUsers.PacketQueue.Flush` | src/dmr/packetq.c:80-93 | the queue is empty and all that was added has left |
| `QueueUsers.PacketQueue.ForEach` | src/dmr/packetq.c:95-110 | packets are shown in order up to the first that is answered with other than zero, and that answer is the result; the callback may answer differently at every call |
| `QueueUsers.FirstRefusal` | src/dmr/packetq.c:104-109 | the place of the first answer other than zero: none before it, and one there unless it is the end |
| `Raw.Buffer.constructor` | src/dmr/raw.c:14-24 | a zeroed buffer, rounded up to blocks of 128 bytes |
| `Raw.Buffer.Grow` | src/dmr/raw.c:147-161 | room for that many bytes, contents kept, everything behind them zero; failure changes nothing |
| `Raw.Buffer.Add` | src/dmr/raw.c:31-39 | the bytes are appended to all that was appended since the last reset |
| `Raw.Buffer.AddHex` | src/dmr/raw.c:41-57 | two digits for each byte are appended, high one first |
| `Raw.Buffer.AddUint8` | src/dmr/raw.c:59-67 | the byte is appended |
| `Raw.Buffer.AddUint` | src/dmr/raw.c:80-98 | the bytes of the number are appended, least significant first |
| `Raw.Buffer.AddUint32Le` | src/dmr/raw.c:100-103 | the four bytes are appended, most significant first |
| `Raw.Buffer.Reset` | src/dmr/raw.c:169-175 | nothing is left and all bytes are zero |
| `Raw.Buffer.Zero` | src/dmr/raw.c:184-189 | the length is kept and all bytes are zero |
| `RawBytes.DecodedLittleEndian` | src/dmr/raw.c:88-92 | the bytes of a number decode to it modulo what they can hold, for every size |
| `RawBytes.LittleEndianDecoded` | src/dmr/raw.c:88-92 | and every byte sequence is the encoding of its number |
| `RawBytes.LittleEndianAt` | src/dmr/raw.c:88-92 | byte i of the encoding is the quotient by 256^i, modulo 256 |
| `Raw.IntegerReadsBack` | src/dmr/raw.c:80-98 | what was appended as an integer reads back as it, behind whatever was there before |
| `RawBytes.HexInjective` | src/dmr/raw.c:50-54 | with sixteen different digits no two byte sequences have the same digits |
| `RawBytes.HexAt` | src/dmr/raw.c:50-54 | the digits of byte i are at places 2i and 2i+1, that of the high half first |
| `RawBytes.SwappedIsBigEndian` | src/dmr/raw.c:8-12 | the little-endian bytes of the swapped word are those of the word in reverse |
| `RawBytes.SwappedIsLittleEndianIff` | src/dmr/raw.c:100-103 | the variant named little-endian is so if and only if the word reads the same both ways |
| `RawBytes.OneIsNotLittleEndian` | src/dmr/raw.c:100-103 | a word for which it is not |
| `IoTime.Timeout` | src/dmr/io.c:217-257 | for any timers: zero if one is overdue, otherwise the least of the default and all times left, hence max(0, min(...)) for a default that is not negative; the result is zero only without timers |
| `IoTime.NearestIsLeast` | src/dmr/io.c:233-255 | the minimum is a lower bound and is attained |
| `IoRound.SleepsUntil` | src/dmr/io.c:217-257 | the minimum over the deadlines of the timers is such a wait: zero if a timer is overdue, otherwise at most the default and every time left, and one of them |
| `IoTime.SleepExact` | src/dmr/io.c:217-257 | with nothing overdue the sleep is not negative if and only if the default is not |
| `IoTime.Difference` | src/dmr/time.c:6-14 | subtraction with borrow is subtraction of the whole times |
| `IoSpec.PerformKeeps` | src/dmr/io.c:367-581 | every registration and deletion keeps: the counter is the total of the lists without close entries, readers and writers have entries, no descriptor in a set is above the highest, entries are distinct |
| `IoSpec.PerformAllKeeps` | src/dmr/io.c:367-581 | and so does any sequence of them |
| `IoSpec.PerformEvolves` | src/dmr/io.c:367-581 | a request prepends new entries or drops one, and leaves all other lists and the order of the rest alone |
| `Io.Loop.RegSignal` | src/dmr/io.c:367-395 | the new entry, with signal, callback and kind, in front of the list; nothing on failed allocation |
| `Io.Loop.Reg` | src/dmr/io.c:397-417 | the new entry in front of the list of readers (likewise of writers, 439-459, and errors, 481-501), its descriptor in the set, and the highest descriptor |
| `Io.Loop.RegClose` | src/dmr/io.c:523-540 | the new entry in front of the list, not counted |
| `Io.Loop.RegTimer` | src/dmr/io.c:542-563 | the new timer in front of the list, due one interval after the time of the loop |
| `Io.Loop.Del` | src/dmr/io.c:419-437 | the first entry with descriptor and callback leaves, and the descriptor leaves the set (likewise 461-479 and 503-521), with code 0; without one nothing happens, with code 1 |
| `Io.Loop.DelTimer` | src/dmr/io.c:565-581 | the first timer with the callback leaves; without one nothing happens; code 0 always |
| `Io.Loop.Shut` | src/dmr/io.c:339-345 | the loop is closed and nothing else changes |
| `IoPass.PassShape` | src/dmr/io.c:267-284 | after any pass that does not break, the list is what callbacks registered followed by the old entries that they did not delete, settled if due; all other lists likewise; the invariant holds |
| `IoPass.Served` | src/dmr/io.c:267-284 | serving the current entry and going on to the saved next one is one step of the pass, whatever the callback adds and deletes elsewhere |
| `IoPass.Noticed` | src/dmr/io.c:271-272 | the entry or the saved next one is missing from its list after a callback if and only if the callback deleted it |
| `Io.Loop.Walk` | src/dmr/io.c:267-284 | the walk along the links leaves exactly the state of the pass over the list as it was at the beginning, callbacks in the same order; it breaks if and only if some callback deletes the current or the saved next entry, and then leaves the state after the first such |
| `Io.Loop.HandleReadable` | src/dmr/io.c:70-88 | the exact state after the entries of the descriptor were served, and when the walk breaks; only readers of the descriptor that were there are called back for, and with callbacks that delete nothing all of them, in order |
| `Io.Loop.HandleFirst` | src/dmr/io.c:90-130 | the first entry with the descriptor, and no other, is called back for and, if for one time, retired; without one nothing happens; for signals likewise (144-161); breaks if and only if the callback deletes that entry |
| `Io.Loop.HandleTimers` | src/dmr/io.c:260-285 | the exact state after a pass at the given time, and when it breaks; only timers that were there with a deadline before that time are called back for, and with callbacks that delete nothing all of them, in order; no timer with a non-negative interval is overdue afterwards, new ones included |
| `Io.Loop.HandleClose` | src/dmr/io.c:132-142 | the exact state after the close entries were served, and when the walk breaks; with callbacks that delete nothing all of them are called back for, in order |
| `IoPass.PassCloses` | src/dmr/io.c:132-142 | no close entry from before the pass is left |
| `Io.Loop.Visit` | src/dmr/io.c:317-328 | the exact state after the events of one descriptor, and, with callbacks that ask for nothing, the calls made: the first error entry, all readers, the first writer |
| `Io.Loop.Sweep` | src/dmr/io.c:316-329 | the exact state after every reported descriptor, in order; the loop ends although callbacks can raise the highest descriptor; the count of handled events is the count of reported ones |
| `Io.Loop.Select` | src/dmr/io.c:303-312 | the exact state after any signals that interrupt select, when a signal callback breaks, and the wait in that state: none if a timer is overdue, otherwise at most the default and the time left of every timer, and one of them |
| `Io.Loop.Round` | src/dmr/io.c:297-333 | the exact state after signals, timers and reported descriptors, whether or not the round breaks, and when it breaks; the wait, as for select; with callbacks that ask for nothing the exact sequence of calls; the count of handled events is the count of reported ones |
| `Io.Loop.Run` | src/dmr/io.c:287-337 | the exact state after the rounds, which follow each other exactly while something is registered and nobody has closed the loop, and then the close entries, whether or not something breaks; no close entry from before is left |
| `IoCalls.PassStops` | src/dmr/io.c:287-345 | a pass leaves the loop closed if and only if it was, or one of the callbacks made asked for it |
| `IoCalls.FirstStops` | src/dmr/io.c:90-161 | the same when only the first entry is served |
| `IoWalk.Called` | src/dmr/io.c:267-284 | what a callback does to a pass under way, wherever it adds and deletes |
| `IoWalk.Advanced` | src/dmr/io.c:267-284 | going on to the saved next entry skips exactly what was deleted before its turn |
| `IoPass.PassNoneOverdue` | src/dmr/io.c:260-285 | after a pass no timer with a non-negative interval is overdue, not even one that a callback registered |
| `IoLaws.OncePerPass` | src/dmr/io.c:260-285 | the entry at each place of the list as it was at the start is called back for exactly once if it is due and the callbacks made for entries before it have not deleted it, otherwise never; no other entry is |
| `IoCalls.TimerOnce` | src/dmr/io.c:260-285 | the timer at each place of the list as it was is called back for exactly once if its deadline is before the time and the callbacks made before its turn have not deleted it, otherwise never; nobody else is |
| `IoCalls.ReaderOnce` | src/dmr/io.c:70-88 | the same for readers, with the descriptor in place of the deadline |
| `IoCalls.CloserOnce` | src/dmr/io.c:132-142 | the same for close entries, which are all due |
| `IoCalls.PassCalls` | src/dmr/io.c:260-285 | broken off or not, a pass calls back only for entries that were in the list and due |
| `IoLaws.GentlePass` | src/dmr/io.c:260-285 | with callbacks that delete nothing, exactly the due entries are called back for, in order, and the pass cannot break |
| `IoCalls.GentleTimers` | src/dmr/io.c:260-285 | with callbacks that delete nothing the calls are for exactly the timers with a deadline before the time, in order |
| `IoLaws.LeavesExactly` | src/dmr/io.c:260-285 | of the entries that the callbacks of the pass did not delete, exactly the due one-time ones are gone; due others have their next deadline, the rest are unchanged |
| `IoCalls.TimersLeft` | src/dmr/io.c:260-285 | what becomes of a timer that no callback deleted: as it was if not overdue, gone if for one time, otherwise due one interval after the time of the pass |
| `IoCalls.ReadersLeft` | src/dmr/io.c:70-88 | of the readers that no callback deleted exactly the one-time ones of the descriptor are gone |
| `IoCalls.ServesFirst` | src/dmr/io.c:90-130 | whatever the callback does, exactly the first entry of the descriptor is called back for, and it stays if and only if it was not for one time |
| `IoCalls.DeletesAsked` | src/dmr/io.c:419-437 | a deletion takes out exactly the first entry with descriptor and callback |
| `IoCalls.DeletesTimer` | src/dmr/io.c:565-581 | and that of a timer the first with the callback |
| `IoCalls.VisitCalls` | src/dmr/io.c:317-328 | whatever the callbacks do, the calls for one descriptor are for the first error entry, the readers that have their turn, and the first writer there is by then |
| `IoQuiet.QuietVisit` | src/dmr/io.c:317-328 | with callbacks that ask for nothing: first error entry, all readers, first writer; the entries of other descriptors are as they were |
| `IoQuiet.QuietRound` | src/dmr/io.c:297-333 | with such callbacks the calls of a whole round, in order: signals, the timers overdue at the second reading of the clock, then every reported descriptor in ascending order |
| `IoLaws.ErrorBacked` | src/dmr/io.c:111-130 | after a one-time error entry is served the set of errors keeps an entry for each of its descriptors if and only if this one was not in it or has another entry |
| `IoLaws.ErrorForgetsWriters` | src/dmr/io.c:119-124 | after a one-time error entry is served every write entry is still watched if and only if none is for its descriptor |
| `IoLaws.WrongSet` | src/dmr/io.c:111-130 | a run after which nobody waits for a watched error and a writer is forgotten |
| `IoLaws.DeleteWatched` | src/dmr/io.c:419-437 | after a deletion every entry is still watched if and only if nothing was deleted or no other entry has the descriptor |
| `IoLaws.DeletedTwin` | src/dmr/io.c:419-437 | a run after which a reader waits for a descriptor that is not watched |
| `IoLaws.RetireWatched` | src/dmr/io.c:78-83 | the same condition for serving a one-time reader or writer (98-103) |
| `IoLaws.ServedTwin` | src/dmr/io.c:70-88 | a run of the same kind through the dispatcher |
| `IoLaws.RegisterWatched` | src/dmr/io.c:397-417 | registering never leaves an entry unwatched |
| `IoLaws.SelfDeletingReader` | src/dmr/io.c:74-84 | a run in which the callback of a reader deletes the entry being served, and the pass breaks |
| `IoLaws.SelfDeletingWriter` | src/dmr/io.c:94-98 | the same for a writer |
| `Vocoder.Parms.CopyFrom` | src/mbelib/mbelib.c:50-92 | a complete copy of the parameters |
| `Vocoder.Parms.Initialize` | src/mbelib/mbelib.c:100-112 | the initial parameters, with their values in every band |
| `Vocoder.Decoder.Restart` | src/mbelib/mbelib.c:94-115 | all three parameter sets are initial |
| `Vocoder.Parms.Stretch` | src/mbelib/ambe3600x2450.c:485-495 | bands above the last one, and in one codec the sentinel, get its loudness and keep the rest; the others are unchanged |
| `Vocoder.Decoder.ProcessAmbe2450` | src/mbelib/ambe3600x2450.c:590-653 | the whole new state; speech comes out exactly of a good frame with at most three errors or fewer than three concealed ones before it; the status line, sign by sign |
| `Vocoder.Decoder.ProcessImbe4400` | src/mbelib/imbe7200x4400.c:514-554 | the whole new state; speech comes out exactly of a good frame with at most five errors or after fewer than three concealed ones; the status line, sign by sign |
| `VocoderSpec.StepRepeat` | src/mbelib/ambe3600x2450.c:604-651 | the counter after a frame, always 0 to 3, and when the frame is muted |
| `VocoderSpec.AmbeFrame` | src/mbelib/ambe3600x2450.c:604-651 | a good frame with at most three errors brings its parameters; with more, the last ones are kept and the counter goes up, or all is initial at the fourth; a frame that is no speech makes all initial |
| `VocoderSpec.ImbeFrame` | src/mbelib/imbe7200x4400.c:527-553 | the same with five errors, where a frame that does not decode is concealed, too |
| `VocoderSpec.RepeatIsStreak` | src/mbelib/ambe3600x2450.c:590-653 | after any run from the initial state the counter is the length of the unbroken streak of concealed frames modulo 4, for both decoders |
| `VocoderSpec.MutedIff` | src/mbelib/imbe7200x4400.c:514-554 | the last frame of any run is muted if and only if it is lost or the length of its streak is a multiple of 4 |
| `VocoderSpec.AmbeMutedIff` | src/mbelib/ambe3600x2450.c:604-651 | after any run that ends with exactly n good frames of more than three errors, the last frame is muted if and only if it is no speech or n is a positive multiple of 4 |
| `VocoderSpec.ImbeMutedIff` | src/mbelib/imbe7200x4400.c:527-553 | the same for frames that do not decode or have more than five errors |
| `VocoderSpec.ConcealKeeps` | src/mbelib/mbelib.c:50-92 | one to three concealed frames keep frequency, number of bands, gain and all those bands |
| `VocoderSpec.LastGoodRemembered` | src/mbelib/imbe7200x4400.c:528-545 | in any run, after a good frame with few errors (at most three, or five) and up to three damaged ones, these are the parameters of that good frame |
| `VocoderSpec.HeardAgain` | src/mbelib/imbe7200x4400.c:539-552 | after the fourth concealed frame everything is initial, and the fifth is not muted |

## Left out

- Comparators and payloads other than those of the identifier map: the tree macros are modelled for one key type and one order.
- The augmentation hook of the red-black macros, which is empty by default, and the iteration variants that delete or start in the middle.
- The splay minimum, maximum and next macros, the single linked, simple and XOR queue macros, and LIST links: the event loop's lists are sequences with the order that head insertion gives.
- Reading an invalidated link after TAILQ_REMOVE in debug builds.
- Null handles as the first argument (each call returns an error at once) and the text of the last error.
- Allocation, realloc failure, clocks, select, signals and what the callbacks do are inputs; freed memory is not reused while it can be reached. `dmr_io_free`, `dmr_io_add_protocol` and the process-wide table of signal handlers, for more than one loop, are not modelled; signals arrive while select waits.
- Identities of entries of the event loop stand for their addresses; a callback that frees the entry being served or the saved next one ends the pass with a flag, since the code would go on through freed memory.
- Io.Loop.Reg: descriptors are not negative and there is no FD_SETSIZE, as FD_SET demands of its caller.
- Raw.Buffer.Grow: sizes stay below the signed 64-bit limit, and a buffer of size zero is not grown by zero bytes, where the allocator would free it.
- Raw.Buffer.AddHex: the digit table comes from common/byte.h, which is not part of this model, so it is a parameter.
- The dmr_raw_add_x family and dmr_raw_addf, which format through libc.
- CallOnce.CalledOnce: memory is sequentially consistent; the POSIX branch, which calls pthread_once, is not modelled.
- The registers of `Crc` are returned instead of updated through a pointer.
- What a voice frame decodes to and what synthesis leaves in the bands are inputs; audio samples and the other vocoder rates are not modelled. `Vocoder.Parms` keeps its five tables as one table of bands.
- Forward error correction, payload formats, the protocols, the noisebridge programs and logging: they would add tables and input and output, not harder laws.
