# puic: verified models of its parsers, containers and protocols

puic carries TCP connections over QUIC. This project models the parts of it where the
logic is intricate, and proves what they promise:

- **IP literals** (`UrlChars`, `CanonOutput`, `Ipv4*`, `Ipv6*`, `IpCanon`): reading,
  printing and canonicalizing host names that are IP addresses. Both grammars and the
  canonical form are stated on their own, without reference to reader and printer.
- **Circular deque** (`Ring`, `CircularDeque`, `DequeCost`, `DequeRuns`): the ring buffer
  refines a plain sequence over all runs, with its amortised cost.
- **Flat containers** (`FlatOrder`, `FlatBatch`, `FlatTree`): the sorted vector, its batch
  insertion and its hints.
- **Dialer and listener** (`SendPool`, `DialerProtocol`, `DialerLedger`,
  `DialerLiveness`, `DialerDeadlock`, `Dialer`, `Listener`): the pool of 1024 send requests
  shared by all connections, write blocking and wakeup, and the ownership of connections.
- **Relay** (`RelayProtocol`, `RelaySafety`, `RelayProgress`, `RelayOutcome`, `RelayManager`,
  `Relay`): the state machine between a QUIC stream and a TCP connection.
- **MRU cache** (`MruModel`, `MruRecency`, `MruCache`), **pattern matching** (`VlogPattern`) and
  **uniform random numbers** (`RandUtil`).

Code that updates objects in place is modelled by classes and methods with loops. Each
method is proved against a function on values; the laws over all inputs, runs or reachable
states are lemmas about these functions. A protocol is a step function together with what
the environment may do; its theorems are about every run.

## What the proofs found

- *A blocked dialer always wakes again* is false of the code. The wake test
  (`puicclient/src/puic_client.cc:462`) needs all 1024 requests back. A request that the
  socket refuses (lines 367-369), or that completes on a closing socket (lines 452-456),
  never comes back. The second does not need a failure: when the last connection closes
  with a send in flight, the delete alarm stops the dialer, and the next connection
  restarts it with a smaller pool. `DialerDeadlock.DeadlockIsReachable` gives such a run, and
  `DialerLiveness.WakesExactly` the exact condition: with no request missing every schedule
  that completes its sends wakes it, and with one missing none does.
- The early return for a duplicate in last place (`puicbase/base/containers/flat_tree.h:46-48`)
  is never taken: the search before it returns a position that has a successor in the range.
- The IPv6 scan looks at the character behind the host it is given
  (`puicbase/url/url_canon_ip.cc:338`). Its only caller passes the inside of a bracket
  pair, so that character is the closing bracket; the model asks for it to exist.
- The comment on the star loop (`puicbase/base/vlog.cc:159-160`) says that there is at least
  one star. There is none when the text ran out first; the result is still right.

## Environment

The operating system, libuv and the QUIC library appear as parameters (the outcome of a
call) or as steps of a protocol (an event). What is taken for granted about them:

- A session reports that it is write-blocked in the step in which its writer returned
  BLOCKED, clears its writer before it writes again, and reports nothing after its close;
  session ids are not reused. While the dialer stops, its callbacks create no connection.
- No callback of a session stops the dialer that is serving it: `stop` would destroy the
  session whose code is still on the stack.
- libuv completes a send once. It delivers no read before the connection is made and none
  while reading is stopped; it completes a shutdown after the writes before it; it calls
  the close callback once, and no other afterwards.
- QUIC hands out received bytes in order, reports a drain together with the bytes left, and
  may close the connection during any call made to it.

## Model

| member | source | states |
|---|---|---|
| `CanonOutput.GrownLen` | puicbase/url/url_canon.h:130-141 | the new length reaches what is needed, is strictly larger, and stays below 2^31; growth by at most doubling is refused exactly from 2^30 on |
| `CanonOutput.GrownExactly` | puicbase/url/url_canon.h:130-141 | the new length is the first one that doubling, once at least and from below 2^30, brings to the need; there is none exactly if growth is refused |
| `CanonOutput.PushAllKeepsText` | puicbase/url/url_canon.h:91-107 | up to 2^30 characters no pushed character is ever dropped |
| `CanonOutput.Output.Resize` | puicbase/url/url_canon.h:163-171 | a new buffer of any size, smaller or larger, holding as much of the old text as it has room for; the length is left as it was |
| `CanonOutput.Output.Grow` | puicbase/url/url_canon.h:130-141 | grows to the doubled length or leaves the buffer alone, and says which; the text stays |
| `CanonOutput.Output.PushBack` | puicbase/url/url_canon.h:91-107 | appends one character, growing if full; all writes in bounds; drops it only when growth is refused |
| `CanonOutput.Output.PushText` | puicbase/url/url_canon_ip.cc:603-604 | a printed number arrives character by character |
| `UrlChars.NumberText` | puicbase/url/url_canon_internal.cc:395-410 | the decimal or hexadecimal text of a number reads back as that number, with no leading zero |
| `UrlChars.NumberTextIsLower` | puicbase/url/url_canon_internal.cc:395-410 | every digit printed is lower case |
| `UrlChars.NumberTextExactly` | puicbase/url/url_canon_internal.cc:395-410 | the printed text is the only one that reads as the number without a leading zero or an upper-case digit |
| `UrlChars.DigitValueExactly` | puicbase/url/url_canon_ip.cc:145-147 | a digit stands for its place among the sixteen digits, in either case |
| `Ipv4Spec.AddressBytesExact` | puicbase/url/url_canon_ip.cc:160-231 | the four bytes, read big-endian, are the number the parts denote, and that fits 32 bits |
| `Ipv4Grammar.SpellsExactly` | puicbase/url/url_canon_ip.cc:94-156 | a part is a number exactly if it is one by the grammar: hexadecimal behind 0x or 0X, octal behind another leading zero, else decimal; and then that number |
| `Ipv4Grammar.SplitJoin` | puicbase/url/url_canon_ip.cc:33-81 | splitting at the dots undoes joining with dots |
| `Ipv4Grammar.JoinSplit` | puicbase/url/url_canon_ip.cc:33-81 | and joining undoes splitting |
| `Ipv4Grammar.NumbersExactly` | puicbase/url/url_canon_ip.cc:159-196 | a host is not neutral exactly if it is one to four numbers with dots between them and perhaps one behind; it is so in one way only, and these are the values read |
| `Ipv4Grammar.NeutralExactly` | puicbase/url/url_canon_ip.cc:159-196 | a host is left to others exactly if it is not made of numbers |
| `Ipv4Grammar.AddressExactly` | puicbase/url/url_canon_ip.cc:197-231 | a host of numbers is IPV4 exactly if they fill four bytes, the last one taking all that remain, else BROKEN; the four bytes are then that number |
| `Ipv4Reader.TruncationIsSafe` | puicbase/url/url_canon_ip.cc:94-156 | a part of more than 16 significant digits is above 2^32 - 1, and so are its first 16 digits: dropping the rest never changes the verdict |
| `Ipv4Reader.KeptFits` | puicbase/url/url_canon_ip.cc:145-147 | the digits kept, in any base, are a number below 2^64: the conversion of the source never overflows |
| `Ipv4Reader.KeepDigits` | puicbase/url/url_canon_ip.cc:121-143 | accepts exactly the parts whose every digit is of the base, kept or not |
| `Ipv4Reader.IPv4ComponentToNumber` | puicbase/url/url_canon_ip.cc:93-156 | neutral exactly if not a number in its base, broken exactly if above 2^32 - 1, else the exact value, for digit strings of any length |
| `Ipv4Reader.FindIPv4Components` | puicbase/url/url_canon_ip.cc:33-81 | succeeds exactly for one to four pieces of allowed characters, a final dot permitted, and names exactly these pieces |
| `Ipv4Reader.ReadComponents` | puicbase/url/url_canon_ip.cc:169-196 | numeric exactly if every part is; broken exactly if some part exceeds 32 bits; else all values |
| `Ipv4Reader.FillLast` | puicbase/url/url_canon_ip.cc:213-224 | stores the low k bytes big-endian and succeeds exactly if the value is below 256^k; nothing else is written |
| `Ipv4Reader.FillAddress` | puicbase/url/url_canon_ip.cc:197-224 | succeeds exactly if all parts but the last are at most 255 and the last fits the remaining bytes; nothing outside the four bytes is written |
| `Ipv4Reader.IPv4AddressToNumber` | puicbase/url/url_canon_ip.cc:159-231 | verdict, number of parts and bytes are those of the exact reading of the text |
| `Ipv4Printer.AppendIPv4Address` | puicbase/url/url_canon_ip.cc:598-609 | appends the dotted decimal text |
| `Ipv4Printer.IPv4TextExactly` | puicbase/url/url_canon_ip.cc:598-609 | the text is the four bytes in decimal, each without a leading zero, with dots between them, and no other text is |
| `Ipv4Printer.IPv4RoundTrip` | puicbase/url/url_canon_ip.cc:159-231 | every four bytes, printed and read again, give IPV4, four parts and the same bytes |
| `Ipv6Scan.ScanSound` | puicbase/url/url_canon_ip.cc:321-410 | whatever the scan returns is a literal that spells exactly the scanned text |
| `Ipv6Scan.ScanComplete` | puicbase/url/url_canon_ip.cc:321-410 | every literal of the right shape that spells the text is the one the scan returns |
| `Ipv6Scan.ScanExact` | puicbase/url/url_canon_ip.cc:321-410 | scanning returns a literal if and only if it has the right shape and spells the text |
| `Ipv6Scan.ParseExact` | puicbase/url/url_canon_ip.cc:465-524 | reading gives 16 bytes if and only if the text is in the grammar with that meaning; the grammar is stated without the reader |
| `Ipv6Grammar.MeaningExactly` | puicbase/url/url_canon_ip.cc:475-524 | what a literal means, place by place: each group is the number at its place, counted from the end behind the gap; the gap is one place at least and all zero; the tail is the last four bytes |
| `Ipv6Reader.ParseIPv6` | puicbase/url/url_canon_ip.cc:321-410 | the loop over positions finds exactly the components, contraction and IPv4 tail of the scan, in bounds, and fails exactly when it fails |
| `Ipv6Reader.CheckIPv6ComponentsSize` | puicbase/url/url_canon_ip.cc:418-442 | passes exactly for 16 bytes, or for at most 14 with a contraction, whose size is what is missing |
| `Ipv6Reader.IPv6HexComponentToNumber` | puicbase/url/url_canon_ip.cc:447-461 | the exact value of a group of one to four digits, below 2^16 |
| `Ipv6Reader.FillGroups` | puicbase/url/url_canon_ip.cc:490-508 | fills group after group, the contraction in its place, in bounds |
| `Ipv6Reader.ReadTail` | puicbase/url/url_canon_ip.cc:510-523 | succeeds exactly if the literal is well formed; all 16 bytes are then its meaning |
| `Ipv6Reader.ReadInner` | puicbase/url/url_canon_ip.cc:475-524 | between the brackets: succeeds exactly if the text parses, with those bytes |
| `Ipv6Reader.IPv6AddressToNumber` | puicbase/url/url_canon_ip.cc:465-524 | succeeds exactly for a bracketed text that parses, with those bytes |
| `Ipv6Printer.ChosenIsUnique` | puicbase/url/url_canon_ip.cc:529-558 | "the leftmost longest run of two or more zero groups" determines one range |
| `Ipv6Printer.ChooseIPv6ContractionRange` | puicbase/url/url_canon_ip.cc:529-558 | the loop returns that range |
| `Ipv6Printer.ChosenIsChosen` | puicbase/url/url_canon_ip.cc:529-558 | the range the printed text contracts is that range, and it is a run of zero groups |
| `Ipv6Printer.CanonicalLiteralMeans` | puicbase/url/url_canon_ip.cc:611-645 | the printed literal is in the grammar and means the address it was printed from |
| `Ipv6Printer.IPv6RoundTrip` | puicbase/url/url_canon_ip.cc:321-645 | every 16 bytes, printed and parsed, give the same 16 bytes |
| `Ipv6Printer.AppendIPv6Address` | puicbase/url/url_canon_ip.cc:611-645 | the loop appends the text of the canonical literal |
| `Ipv6Canonical.GroupTextExactly` | puicbase/url/url_canon_ip.cc:634-638 | a group is printed as the one lower-case text without leading zeros that reads as its two bytes |
| `Ipv6Canonical.CanonicalIsUnique` | puicbase/url/url_canon_ip.cc:611-645 | only one literal means an address, has such groups, and contracts the leftmost longest run of two or more zero groups |
| `Ipv6Canonical.IPv6TextExactly` | puicbase/url/url_canon_ip.cc:611-645 | the printed text is the text of that literal, and no other text is |
| `IpCanon.IPv4TextIsCanonical` | puicbase/url/url_canon_ip.cc:236-257 | canonical IPv4 text canonicalizes to itself |
| `IpCanon.IPv6TextIsCanonical` | puicbase/url/url_canon_ip.cc:563-594 | canonical bracketed IPv6 text canonicalizes to itself |
| `IpCanon.CanonicalizeIsIdempotent` | puicbase/url/url_canon_ip.cc:660-670 | for every string that is an address, canonicalizing its canonical text gives the same text, family and bytes |
| `IpCanon.SameTextSameAddress` | puicbase/url/url_canon_ip.cc:660-670 | two hosts have the same canonical text if and only if they are the same address |
| `IpCanon.IPv6Exactly` | puicbase/url/url_canon_ip.cc:563-594 | a host is an IPv6 address with given bytes if and only if it is bracketed and its inside denotes them |
| `IpCanon.IPv4Exactly` | puicbase/url/url_canon_ip.cc:160-231 | with all n parts numeric: IPV4 exactly if the first n - 1 are at most 255 and the last is below 256^(5-n), the bytes then spelling that number; else BROKEN |
| `IpCanon.NumbersExactly` | puicbase/url/url_canon_ip.cc:660-670 | a host that the IPv4 grammar makes of numbers is IPV4 with that number if they fill four bytes, else BROKEN |
| `IpCanon.OthersExactly` | puicbase/url/url_canon_ip.cc:562-594 | any other host is IPV6 exactly if it is a literal of the IPv6 grammar in brackets, else BROKEN exactly if it holds a bracket or a colon, else NEUTRAL |
| `IpCanon.CanonicalizeIPv4Address` | puicbase/url/url_canon_ip.cc:235-257 | decides as the verdict says; writes text, bytes, part count and range only for an address |
| `IpCanon.CanonicalizeIPv6Address` | puicbase/url/url_canon_ip.cc:562-594 | decides as the parser says, with broken for left-over punctuation; writes only for an address |
| `IpCanon.CanonicalizeIPAddress` | puicbase/url/url_canon_ip.cc:660-670 | family, bytes, part count, output text and output range are those of the canonical form |
| `IpCanon.AppendedText` | puicbase/url/url_canon_ip.cc:660-670 | with room for it, the canonical text is appended whole |
| `Ring.StoreAt` | puicbase/base/containers/circular_deque.h:516-522 | storing at a slot of the ring replaces the element at its offset and no other |
| `Ring.ContentsPieces` | puicbase/base/containers/circular_deque.h:907-934 | a ring that goes round holds its upper piece, then its lower piece |
| `Ring.SlotOffset` | puicbase/base/containers/circular_deque.h:516-522 | the offset of the slot k places on is k |
| `CircularDeque.MoveBuffer` | puicbase/base/containers/circular_deque.h:907-934 | moves the contents to the front of another buffer, in order, whether or not they go round |
| `CircularDeque.Deque.constructor` | puicbase/base/containers/circular_deque.h:420-420 | a new deque is empty and has no capacity |
| `CircularDeque.Deque.SetCapacityTo` | puicbase/base/containers/circular_deque.h:938-944 | a new buffer with the same contents; every element moved is counted |
| `CircularDeque.Deque.ExpandCapacityIfNecessary` | puicbase/base/containers/circular_deque.h:945-959 | room for what is to come, the same contents, growth by at least a quarter when it grows |
| `CircularDeque.Deque.ShrinkCapacityIfNecessary` | puicbase/base/containers/circular_deque.h:961-980 | the same contents; shrinks exactly when half is unused |
| `CircularDeque.Deque.Reserve` | puicbase/base/containers/circular_deque.h:585-588 | the capacity is the larger of the two, the contents stay |
| `CircularDeque.Deque.ShrinkToFit` | puicbase/base/containers/circular_deque.h:595-604 | no unused capacity, the contents stay |
| `CircularDeque.Deque.ClearRetainCapacity` | puicbase/base/containers/circular_deque.h:983-993 | empty, with the same buffer |
| `CircularDeque.Deque.Clear` | puicbase/base/containers/circular_deque.h:610-615 | empty, without capacity |
| `CircularDeque.Deque.At` | puicbase/base/containers/circular_deque.h:516-522 | the i-th element |
| `CircularDeque.Deque.Front` | puicbase/base/containers/circular_deque.h:533-540 | the first element |
| `CircularDeque.Deque.Back` | puicbase/base/containers/circular_deque.h:542-549 | the last element, also if it lies at the end of the buffer with the ring gone round |
| `CircularDeque.Deque.PushFront` | puicbase/base/containers/circular_deque.h:837-846 | one more element at the front, at the cost of a push |
| `CircularDeque.Deque.PushBack` | puicbase/base/containers/circular_deque.h:848-857 | one more element at the back, at the cost of a push |
| `CircularDeque.Deque.PopFront` | puicbase/base/containers/circular_deque.h:859-872 | the first element goes, at the cost of a pop |
| `CircularDeque.Deque.PopBack` | puicbase/base/containers/circular_deque.h:874-886 | the last element goes, at the cost of a pop |
| `CircularDeque.Deque.MakeRoomFor` | puicbase/base/containers/circular_deque.h:1010-1039 | a hole of the asked size at the asked place, everything before and after it unchanged, also when the shifted range goes round |
| `CircularDeque.Deque.InsertRange` | puicbase/base/containers/circular_deque.h:709-743 | the items are in front of the position, the rest is unchanged |
| `CircularDeque.Deque.Insert` | puicbase/base/containers/circular_deque.h:685-705 | the copies are in front of the position, the rest is unchanged |
| `CircularDeque.Deque.Emplace` | puicbase/base/containers/circular_deque.h:753-772 | the element is in front of the position, and its position is returned |
| `CircularDeque.Deque.EraseRange` | puicbase/base/containers/circular_deque.h:781-826 | the range is gone, the rest is in order, and the returned position is where the rest begins |
| `CircularDeque.Deque.Erase` | puicbase/base/containers/circular_deque.h:780-780 | one element is gone, the rest is in order |
| `CircularDeque.Deque.Resize` | puicbase/base/containers/circular_deque.h:655-669 | cut off, or filled up with copies |
| `CircularDeque.Deque.Assign` | puicbase/base/containers/circular_deque.h:484-490 | the copies and nothing else |
| `CircularDeque.Deque.AssignRange` | puicbase/base/containers/circular_deque.h:493-504 | the items and nothing else |
| `CircularDeque.Deque.Swap` | puicbase/base/containers/circular_deque.h:891-896 | two deques exchange contents |
| `CircularDeque.Deque.TakeFrom` | puicbase/base/containers/circular_deque.h:461-476 | move assignment: takes the contents over and leaves the other empty; harmless on itself |
| `DequeCost.PushIsCheap` | puicbase/base/containers/circular_deque.h:837-857 | a push moves at most 17 elements more than it takes from the potential |
| `DequeCost.PopIsCheap` | puicbase/base/containers/circular_deque.h:859-886 | the same for a pop |
| `DequeCost.AmortisedMoves` | puicbase/base/containers/circular_deque.h:938-980 | any n pushes and pops from an empty deque move at most 17 n elements between buffers |
| `DequeCost.WasteIsBounded` | puicbase/base/containers/circular_deque.h:961-980 | over such runs less than half of a non-minimal capacity is unused |
| `DequeCost.ExpandedExactly` | puicbase/base/containers/circular_deque.h:945-959 | grows only for want of room, to the least capacity with that room that is not below 3 or five quarters of the last one; every element moves once |
| `DequeCost.ShrunkExactly` | puicbase/base/containers/circular_deque.h:961-980 | shrinks only with half or more unused, to the least capacity that is not below 3 or five quarters of the size |
| `DequeRuns.Execute` | puicbase/base/containers/circular_deque.h:484-896 | each operation on the deque is the plain sequence operation on its contents |
| `DequeRuns.Replay` | puicbase/base/containers/circular_deque.h:484-1039 | any legal run from a new deque ends with what the plain sequence holds; runs at the ends move at most 17 elements per operation |
| `DequeRuns.ExecuteOn` | puicbase/base/containers/circular_deque.h:461-476 | on two deques: operations on either, swap, move assignment either way and onto itself are the plain operations on the pair of sequences; the buffers stay apart |
| `DequeRuns.ReplayOn` | puicbase/base/containers/circular_deque.h:461-896 | any legal run over two new deques ends with what the two plain sequences hold |
| `SendPool.Conservation` | puicclient/src/puic_client.cc:340-372 | free, flying, orphaned and lost requests add up to 1024 |
| `SendPool.WriteInv` | puicclient/src/puic_client.cc:340-372 | a packet takes a free request, never one in flight; BLOCKED exactly if the writer is then blocked |
| `SendPool.CompleteInv` | puicclient/src/puic_client.cc:449-467 | a completion keeps the books and never blocks the writer |
| `SendPool.WriteExactly` | puicclient/src/puic_client.cc:340-372 | OK exactly if the writer is not blocked, a request is free and the socket accepts; ERROR exactly if only the last fails; the top request is then in flight, or lost |
| `SendPool.CompleteExactly` | puicclient/src/puic_client.cc:449-467 | a completion unblocks exactly if it brings the last of the 1024 requests back; on a closing socket the request is lost |
| `SendPool.OpenCloseInv` | puicclient/src/puic_client.cc:160-235 | opening unblocks and takes no request; closing orphans the sends in flight |
| `SendPool.NoLostWakeup` | puicclient/src/puic_client.cc:449-467 | a blocked writer with no request missing has a send in flight |
| `SendPool.Drain` | puicclient/src/puic_client.cc:449-467 | completing all sends in flight, in any order, unblocks exactly if no request is missing |
| `SendPool.StuckForever` | puicclient/src/puic_client.cc:449-467 | with a request missing, a blocked writer stays blocked whatever is sent or completes |
| `SendPool.CanWakeExactly` | puicclient/src/puic_client.cc:449-467 | while the socket stays open a blocked writer can write again if and only if no request is missing |
| `DialerProtocol.StepInv` | puicclient/src/puic_client.cc:153-479 | every step of dialer, sessions, alarm and socket keeps the invariant |
| `DialerProtocol.ReachableInv` | puicclient/src/puic_client.cc:124-479 | the invariant holds after every run from construction |
| `DialerLedger.StepBalances` | puicclient/src/puic_client.cc:340-467 | every step moves requests as it should, counted from the step alone |
| `DialerLedger.BooksBalance` | puicclient/src/puic_client.cc:340-467 | over every run: in flight is what the socket took and has not completed, lost is what it refused or completed while closing, free is the rest |
| `DialerLiveness.RequestsAreConserved` | puicclient/src/puic_client.cc:340-372 | in every reachable state the requests add up to 1024 |
| `DialerLiveness.BlockedHasSendInFlight` | puicclient/src/puic_client.cc:340-372 | in every reachable state an open, blocked dialer with no request missing has a send in flight |
| `DialerLiveness.NobodyIsForgotten` | puicclient/src/puic_client.cc:297-300 | in every reachable state: outside a wakeup somebody waits only on a blocked dialer; a session's writer is blocked exactly if its connection waits |
| `DialerLiveness.MissingMeansStuck` | puicclient/src/puic_client.cc:459-466 | once a request is missing, a blocked dialer stays blocked and makes no wakeup until it is stopped |
| `DialerLiveness.DrainWakes` | puicclient/src/puic_client.cc:449-467 | with none missing, an uninterrupted series of all completions starts a wakeup at the last one, with everybody still in the list |
| `DialerLiveness.CompletionsWake` | puicclient/src/puic_client.cc:449-467 | with none missing, every schedule without a stop that completes the sends in flight wakes the dialer, whatever writes, reports, creations, closes and refusals come in between |
| `DialerLiveness.WakesExactly` | puicclient/src/puic_client.cc:449-467 | every schedule without a stop that completes the sends in flight wakes a blocked dialer if and only if no request is missing; and if one is missing, no schedule does |
| `DialerDeadlock.DeadlockIsReachable` | puicclient/src/puic_client.cc:237-245 | a concrete run after which a connection waits on an open dialer, nothing is in flight and nothing can wake it |
| `DialerLiveness.WakeIsBounded` | puicclient/src/puic_client.cc:469-479 | whatever the sessions do, a wakeup makes at most one pass per connection waiting at its start |
| `DialerLiveness.WaitingRun` | puicclient/src/puic_client.cc:297-300 | a waiting connection moves up by one place per pass, and every wakeup makes a pass |
| `DialerLiveness.ServedWithin` | puicclient/src/puic_client.cc:469-479 | a connection at place k does not wait through more than k + 1 wakeups |
| `DialerLiveness.LeavesBy` | puicclient/src/puic_client.cc:277-295 | it stops waiting only by being served with its writer cleared, by closing, or by a stop; never by an alarm |
| `DialerLiveness.NobodyVanishes` | puicclient/src/puic_client.cc:247-295 | in one step connections appear by creation only, never vanish and are never destroyed twice |
| `DialerLiveness.EverybodyIsKept` | puicclient/src/puic_client.cc:247-295 | over every run the connections accounted for are exactly those there before and those created |
| `DialerLiveness.OneOwner` | puicclient/src/puic_client.cc:277-295 | after every run a connection ever created is in exactly one of live, closed and destroyed, and no other is in any; only live ones wait; closed ones have the alarm armed |
| `DialerLiveness.LifeExactly` | puicclient/src/puic_client.cc:216-295 | a connection lives from its creation until it is closed or the dialer is stopped; a closed one is destroyed exactly when the alarm rings or at a stop |
| `DialerLiveness.LivesOn` | puicclient/src/puic_client.cc:237-245 | over every run: a live connection that is not closed, on a dialer that is not stopped by its caller, lives on, whatever alarms ring |
| `DialerLiveness.OpenExactly` | puicclient/src/puic_client.cc:160-245 | the socket opens exactly at a start or creation that binds it, unblocked, and closes exactly at a stop or an alarm that finds nobody alive |
| `DialerLiveness.WriterExactly` | puicbase/puic/puic_per_session_writer.cc:17-42 | a session's writer is blocked exactly from a send that finds no request until it is woken |
| `DialerLiveness.AlarmExactly` | puicclient/src/puic_client.cc:160-295 | when the delete alarm is set and cleared |
| `DialerLiveness.AlarmSpares` | puicclient/src/puic_client.cc:237-245 | an alarm that finds somebody alive leaves socket and waiting list alone |
| `DialerLiveness.StopDestroysAll` | puicclient/src/puic_client.cc:216-235 | stopping destroys everything that lived and leaves nothing pending |
| `Dialer.PuicDialer.constructor` | puicclient/src/puic_client.cc:124-140 | a new dialer is the initial state |
| `Dialer.PuicDialer.Start` | puicclient/src/puic_client.cc:160-207 | opens the socket unless it is open or cannot be bound |
| `Dialer.PuicDialer.CreateConn` | puicclient/src/puic_client.cc:247-265 | restarts a stopped dialer if need be; fails exactly if that fails |
| `Dialer.PuicDialer.WritePacket` | puicclient/src/puic_client.cc:340-372 | refines the pool's write; OK exactly if not blocked, a request free and the socket accepting |
| `Dialer.PuicDialer.OnConnWriteBlocked` | puicclient/src/puic_client.cc:297-300 | to the tail of the list, once |
| `Dialer.PuicDialer.SessionWrite` | puicbase/puic/puic_per_session_writer.cc:17-42 | a session's write through its own writer, with the report of a block |
| `Dialer.PuicDialer.OnConnClosed` | puicclient/src/puic_client.cc:277-295 | moves the connection to the closed ones, arms the alarm, takes it off the list |
| `Dialer.PuicDialer.Stop` | puicclient/src/puic_client.cc:216-235 | the loop ends with every connection closed and destroyed |
| `Dialer.PuicDialer.OnAlarm` | puicclient/src/puic_client.cc:237-245 | destroys the closed connections, spares the live ones, and stops exactly a dialer that has none left |
| `Dialer.PuicDialer.Wakeup` | puicclient/src/puic_client.cc:469-479 | ends after at most one pass per waiting connection, with nobody waiting or the writer blocked; is a run of protocol steps |
| `Dialer.PuicDialer.OnUvSend` | puicclient/src/puic_client.cc:449-467 | a completion on the open or on a closing socket, with the wakeup it starts, is a run of protocol steps |
| `Listener.PuicListener.Start` | puicserver/src/puic_server.cc:157-209 | opens the pool unless it is open or cannot be bound |
| `Listener.PuicListener.Stop` | puicserver/src/puic_server.cc:211-225 | closes it; what is in flight is orphaned |
| `Listener.PuicListener.WritePacket` | puicserver/src/puic_server.cc:275-307 | the same pool protocol as the dialer's, with its invariant; OK exactly if not blocked, a request free and the socket accepting |
| `Listener.PuicListener.OnUvSend` | puicserver/src/puic_server.cc:399-417 | the same completion; the dispatcher is woken exactly when the writer unblocks, and then every request is free |
| `RelaySafety.StepInv` | puicproxy/src/puic_proxy.cc:79-548 | every event keeps the lifetime, forwarding and backpressure rules |
| `RelaySafety.CleanEnds` | puicproxy/src/puic_proxy.cc:379-400 | ending a running job lets go of both connections and queues the job once |
| `RelaySafety.NoFault` | puicproxy/src/puic_proxy.cc:188-467 | no run calls a null or deleted job or connection or fails an assertion of the code, also when QUIC ends the job inside a write, a read or a consume |
| `RelaySafety.BytesInOrder` | puicproxy/src/puic_proxy.cc:163-185 | in every run: bytes completed on TCP are the consumed prefix of the stream; a write in flight is exactly the next bytes, at most one; shutdown only after the whole stream; what was read from TCP was handed to QUIC |
| `RelaySafety.BoundedBacklog` | puicproxy/src/puic_proxy.cc:535-548 | reading implies fewer than 8192 unsent bytes; there are never 8192 + 16384 |
| `RelaySafety.NeverStalls` | puicproxy/src/puic_proxy.cc:535-548 | not reading before the end of TCP implies more than 4096 unsent bytes, and the drain to 4096 starts reading again |
| `RelayProgress.StepForwards` | puicproxy/src/puic_proxy.cc:496-533 | every event keeps the forwarding rule, and keeps the shutdown rule unless uv_shutdown refuses |
| `RelayProgress.ForwardNeverStalls` | puicproxy/src/puic_proxy.cc:496-533 | in every run: unconsumed bytes mean a write is under way; with all consumed at the end of the stream the shutdown was asked for, unless uv_shutdown ever refused |
| `RelayOutcome.StepOutcome` | puicproxy/src/puic_proxy.cc:79-548 | for every event of a running job, told from the event and the state before it: whether the job ends, whether TCP is read, what is relayed, when the socket closes |
| `RelayOutcome.EndsExactly` | puicproxy/src/puic_proxy.cc:379-494 | a running job ends exactly by an event that reports a failure or a death or runs into one; otherwise it is the job it was |
| `RelayOutcome.ConnectedReads` | puicproxy/src/puic_proxy.cc:417-430 | a connection that comes up is read at once |
| `RelayOutcome.ReadsExactly` | puicproxy/src/puic_proxy.cc:535-548 | TCP is read from the moment it is connected, not from 8192 unsent bytes on, and again from 4096 down |
| `RelayOutcome.FullStopsReading` | puicproxy/src/puic_proxy.cc:535-548 | a backlog of 8192 stops reading and leaves the job as it is |
| `RelayOutcome.ClosesExactly` | puicproxy/src/puic_proxy.cc:269-325 | in every run the socket of a running job is closing exactly if both directions have ended |
| `RelayOutcome.RelaysExactly` | puicproxy/src/puic_proxy.cc:444-533 | in every run, counted from its events: QUIC was handed exactly what TCP brought, what TCP has had or is being given is a prefix of what QUIC brought, and each end is passed on |
| `RelayOutcome.Begins` | puicproxy/src/puic_proxy.cc:365-374 | a job runs from the start exactly if connecting and the header did not fail at once |
| `RelayOutcome.UvClosedExactly` | puicproxy/src/puic_proxy.cc:231-242 | after the close callback nothing is called back, and the connection of an ended job is deleted |
| `RelayOutcome.NothingLeaks` | puicproxy/src/puic_proxy.cc:231-242 | the close callback and a round of the timer, in either order, delete an ended job and its connection, once each |
| `RelaySafety.DeletedOnce` | puicproxy/src/puic_proxy.cc:231-242 | the connection is deleted at most once, and exactly once when job and libuv are done; the job is queued exactly when it has ended |
| `RelaySafety.NaturalCloseIsComplete` | puicproxy/src/puic_proxy.cc:307-325 | a socket that closed while its job runs has relayed everything both ways |
| `RelayManager.EventQueues` | puicproxy/src/puic_proxy.cc:379-400 | an event queues a job at most when it ends it |
| `RelayManager.DoInv` | puicproxy/src/puic_proxy.cc:606-640 | arrivals, events of any job and the timer keep the manager's rules |
| `RelayManager.EveryJobDeletedOnce` | puicproxy/src/puic_proxy.cc:606-618 | over every interleaving of all jobs: the list holds exactly the ended, undeleted jobs, once each; a round of the timer deletes exactly these, leaves every other job as it is and empties the list |
| `RelayManager.EachJobAlone` | puicproxy/src/puic_proxy.cc:606-640 | however the jobs are interleaved, each goes through its own events as if it were alone |
| `RelayManager.EveryJobIsReachable` | puicproxy/src/puic_proxy.cc:606-640 | so every job of every run of the proxy is in a state that a run of one job reaches |
| `RelayManager.InOrderOfEnding` | puicproxy/src/puic_proxy.cc:615-618 | until the timer comes round, ended jobs are listed in the order they ended |
| `Relay.TCPConn.Start` | puicproxy/src/puic_proxy.cc:79-108 | starts connecting; an immediate failure ends the job |
| `Relay.TCPConn.Close` | puicproxy/src/puic_proxy.cc:110-119 | deleted at once if libuv is done, else closing; never deleted twice |
| `Relay.TCPConn.StartRead` | puicproxy/src/puic_proxy.cc:121-133 | refines the protocol; the callback is there when it is called |
| `Relay.TCPConn.StopRead` | puicproxy/src/puic_proxy.cc:135-142 | reading stops unless TCP is at its end |
| `Relay.TCPConn.Write` | puicproxy/src/puic_proxy.cc:163-177 | refines the protocol; no write is under way |
| `Relay.TCPConn.Shutdown` | puicproxy/src/puic_proxy.cc:179-185 | asked for unless writing has ended |
| `Relay.TCPConn.UvClose` | puicproxy/src/puic_proxy.cc:188-195 | closing starts once, and the job told of it is not deleted |
| `Relay.TCPConn.OnUvConnect` | puicproxy/src/puic_proxy.cc:197-229 | refines the protocol step |
| `Relay.TCPConn.OnUvClose` | puicproxy/src/puic_proxy.cc:231-242 | forgets everything and is deleted exactly if the job let go |
| `Relay.TCPConn.OnUvRead` | puicproxy/src/puic_proxy.cc:256-268 | refines the protocol step |
| `Relay.TCPConn.OnUvReadEof` | puicproxy/src/puic_proxy.cc:269-277 | refines the protocol step, also when telling the job ends it |
| `Relay.TCPConn.OnUvReadFailed` | puicproxy/src/puic_proxy.cc:279-283 | refines the protocol step |
| `Relay.TCPConn.OnUvWrite` | puicproxy/src/puic_proxy.cc:286-305 | refines the protocol step |
| `Relay.TCPConn.OnUvShutdown` | puicproxy/src/puic_proxy.cc:307-325 | refines the protocol step |
| `Relay.ProxyJob.constructor` | puicproxy/src/puic_proxy.cc:342-356 | becomes the user data of its QUIC connection |
| `Relay.ProxyJob.Start` | puicproxy/src/puic_proxy.cc:365-374 | a job that starts is the protocol's initial state, or already ended |
| `Relay.ProxyJob.Clean` | puicproxy/src/puic_proxy.cc:379-400 | ends the job once, queues it once, and does not come back into itself |
| `Relay.ProxyJob.OnTCPConnErr` | puicproxy/src/puic_proxy.cc:409-415 | refines the protocol |
| `Relay.ProxyJob.OnTCPConnBound` | puicproxy/src/puic_proxy.cc:417-430 | refines the protocol: reading starts |
| `Relay.ProxyJob.OnTCPConnEOF` | puicproxy/src/puic_proxy.cc:432-442 | refines the protocol |
| `Relay.ProxyJob.OnTCPConnRcvd` | puicproxy/src/puic_proxy.cc:444-455 | refines the protocol, also when the write ends the job |
| `Relay.ProxyJob.OnTCPConnSent` | puicproxy/src/puic_proxy.cc:457-467 | refines the protocol: consumes exactly what was sent, then goes on unless the job ended |
| `Relay.ProxyJob.OnPUICConnErr` | puicproxy/src/puic_proxy.cc:471-478 | refines the protocol |
| `Relay.ProxyJob.OnPUICConnCanRead` | puicproxy/src/puic_proxy.cc:480-486 | refines the protocol |
| `Relay.ProxyJob.OnPUICConnCanWrite` | puicproxy/src/puic_proxy.cc:488-494 | refines the protocol |
| `Relay.ProxyJob.MayPuicToTcp` | puicproxy/src/puic_proxy.cc:496-510 | refines the protocol: the next readable bytes, the shutdown at the end of the stream, or nothing, also if reading ended the job |
| `Relay.ProxyJob.PassOn` | puicproxy/src/puic_proxy.cc:511-533 | refines the protocol: writes what was read, or shuts down at the end |
| `Relay.ProxyJob.MayTcpToPuic` | puicproxy/src/puic_proxy.cc:535-548 | refines the protocol: stop at 8192, start at 4096 |
| `Relay.ServerConn.ReadableRegions` | puicserver/src/puic_server_lib.cc:57-71 | the bytes from the first unconsumed one on; the end exactly if none is left and the stream has ended; tells the job if the connection fails of it |
| `Relay.ServerConn.MarkConsumed` | puicserver/src/puic_server_lib.cc:73-84 | consumes, and tells the job if the connection fails of it |
| `Relay.ServerConn.Write` | puicserver/src/puic_server_lib.cc:86-103 | takes the bytes unless the end was written, reports what is unsent, and tells the job if the connection fails of it |
| `Relay.ServerConn.Gone` | puicproxy/src/puic_proxy.cc:665-676 | the job, if still attached, ends |
| `Relay.ServerConn.OnCanRead` | puicproxy/src/puic_proxy.cc:642-651 | reaches the job exactly if it is still attached |
| `Relay.ServerConn.OnCanWrite` | puicbase/puic/puic_stream.cc:30-36 | reaches the job exactly if it is attached and the end was not written |
| `Relay.ProxyManager.JobToClean` | puicproxy/src/puic_proxy.cc:615-618 | one more job to delete |
| `Relay.ProxyManager.Monitor` | puicproxy/src/puic_proxy.cc:606-613 | deletes every job that ended since the last time, each for the first time, and no other |
| `Relay.ProxyManager.OnPUICAccept` | puicproxy/src/puic_proxy.cc:628-640 | a new job with connections of its own; the manager's rules hold |
| `Relay.ProxyManager.Handle` | puicproxy/src/puic_proxy.cc:606-677 | an event for one job is the protocol step, leaves every other job alone and keeps the manager's rules |
| `Relay.Deliver` | puicproxy/src/puic_proxy.cc:197-494 | every possible event, delivered to its object, is the protocol step; nothing null or deleted is used on the way |
| `FlatOrder.StrictIsUnique` | puicbase/base/containers/flat_tree.h:719-779 | a strictly sorted sequence is determined by what it holds for each key |
| `FlatOrder.AbsentExactly` | puicbase/base/containers/flat_tree.h:952-961 | the test at the lower bound tells whether a key is there |
| `FlatOrder.InsertOneLike` | puicbase/base/containers/flat_tree.h:392-400 | after one insertion each key has the first or the last, as asked, of what it had and what came |
| `FlatOrder.InsertEachLike` | puicbase/base/containers/flat_tree.h:392-400 | the same after any number of insertions, and the container stays strictly sorted |
| `FlatOrder.InsertEachHolds` | puicbase/base/containers/flat_tree.h:392-400 | inserting items leaves exactly the values that come first, or last, of their key in the container followed by the items |
| `FlatBatch.FirstOfRunsPicks` | puicbase/base/containers/flat_tree.h:447-469 | keeping the first of each run of a sorted range keeps the first of each key |
| `FlatBatch.LastOfRunsPicks` | puicbase/base/containers/flat_tree.h:36-59 | keeping the last of each run keeps the last of each key |
| `FlatBatch.OfferNew` | puicbase/base/containers/flat_tree.h:431-445 | an item with a new key waits at the end; the first place anything goes to is tracked |
| `FlatBatch.OfferOld` | puicbase/base/containers/flat_tree.h:408-423 | an item with an old key replaces the value or is dropped, as the policy has it |
| `FlatBatch.BatchIsEach` | puicbase/base/containers/flat_tree.h:719-779 | sorting, thinning out and merging the waiting items from that place gives the container of inserting one by one |
| `FlatTree.RangeIsEach` | puicbase/base/containers/flat_tree.h:447-469 | sorting and thinning out a whole range is inserting it one by one into an empty container |
| `FlatTree.HintIsLowerBound` | puicbase/base/containers/flat_tree.h:963-982 | a hint that fits is where the search would have ended |
| `FlatTree.EmplacedExactly` | puicbase/base/containers/flat_tree.h:950-982 | the flag says whether the key was new; the position is where the one value of the key now is: the new one, or the old one as the policy has it |
| `FlatTree.FlatTree.FromRange` | puicbase/base/containers/flat_tree.h:507-516 | a container made from a range is that of inserting it one by one |
| `FlatTree.FlatTree.EqualRange` | puicbase/base/containers/flat_tree.h:880-891 | the range of exactly the values with a key |
| `FlatTree.FlatTree.Insert` | puicbase/base/containers/flat_tree.h:950-961 | inserted exactly if no value had the key; the position is that of the one value with the key; a duplicate changes nothing |
| `FlatTree.FlatTree.InsertHint` | puicbase/base/containers/flat_tree.h:963-982 | for every hint the same container, position and flag; inserted exactly if no value had the key |
| `FlatTree.FlatTree.InsertOrAssign` | puicbase/base/containers/flat_tree.h:391-400 | the value is at the returned position, the only one of its key; inserted exactly if there was none |
| `FlatTree.FlatTree.AppendOrAssign` | puicbase/base/containers/flat_tree.h:407-423 | overwrites in the searched part or appends behind everything |
| `FlatTree.FlatTree.AppendUnique` | puicbase/base/containers/flat_tree.h:430-445 | appends only what the searched part does not have |
| `FlatTree.FlatTree.LastUnique` | puicbase/base/containers/flat_tree.h:36-59 | in place: the last of each run, in order, at the front of the range; nothing outside it changes |
| `FlatTree.FlatTree.SortAndUnique` | puicbase/base/containers/flat_tree.h:447-469 | the tail sorted, one value of each key kept |
| `FlatTree.FlatTree.Offer` | puicbase/base/containers/flat_tree.h:736-770 | the loop over the items, for both policies |
| `FlatTree.FlatTree.InsertRange` | puicbase/base/containers/flat_tree.h:717-779 | any range, either policy, single or several passes: the container of inserting one by one |
| `FlatTree.FlatTree.EraseKey` | puicbase/base/containers/flat_tree.h:812-821 | the key is gone, every other key keeps its value, and the count is right |
| `MruModel.StepSound` | puicbase/base/containers/mru_cache.h:87-117 | Put and Get keep keys distinct and the size within the limit |
| `MruModel.PutIncluded` | puicbase/base/containers/mru_cache.h:87-103 | Put keeps inclusion, also when the larger cache has the key and the smaller evicts |
| `MruModel.GetIncluded` | puicbase/base/containers/mru_cache.h:108-117 | Get keeps inclusion, also when only the larger cache has the key |
| `MruModel.RunIncluded` | puicbase/base/containers/mru_cache.h:87-163 | after any run from empty the smaller cache's list is a subsequence, payloads included, of the larger one's or of the unlimited one's, and is full if that holds more |
| `MruModel.HitsGrow` | puicbase/base/containers/mru_cache.h:108-133 | where a smaller cache hits, a larger one hits with the same payload |
| `MruRecency.RecencyOrder` | puicbase/base/containers/mru_cache.h:87-117 | after any run the list is in the order of last use, by Put or Get, and every entry has the payload last put under its key |
| `MruRecency.UnlimitedHoldsAll` | puicbase/base/containers/mru_cache.h:87-117 | a cache without a limit holds exactly the keys ever put |
| `MruRecency.HasAfter` | puicbase/base/containers/mru_cache.h:87-117 | a command leaves exactly the keys that were there and the one put, less the last of a full list when a new key comes |
| `MruRecency.EvictsOldest` | puicbase/base/containers/mru_cache.h:87-103 | over any run: a key leaves only when a new one is put at the limit, and it is the one whose last use is longest ago |
| `MruCache.IndexFinds` | puicbase/base/containers/mru_cache.h:108-117 | the index leads to a key's node exactly if the list has the key |
| `MruCache.MRUCache.Put` | puicbase/base/containers/mru_cache.h:87-103 | the list is as the model says; index and list agree |
| `MruCache.MRUCache.Get` | puicbase/base/containers/mru_cache.h:108-117 | a hit moves the entry to the front and leaves the others in order, a miss changes nothing; index and list agree |
| `MruCache.MRUCache.Peek` | puicbase/base/containers/mru_cache.h:121-133 | the payload, without a change |
| `MruCache.MRUCache.Erase` | puicbase/base/containers/mru_cache.h:144-147 | one node leaves the list and its key the index; returns the node behind it |
| `MruCache.MRUCache.ShrinkToSize` | puicbase/base/containers/mru_cache.h:160-163 | the loop evicts the oldest until few enough are left |
| `VlogPattern.OneCharacter` | puicbase/base/vlog.cc:133-154 | a character other than a star matches exactly one character of its kind |
| `VlogPattern.StarStep` | puicbase/base/vlog.cc:171-175 | a star matches nothing, or one character and what a star matches |
| `VlogPattern.StarStar` | puicbase/base/vlog.cc:159-162 | stars in a row match what one star matches |
| `VlogPattern.PlainPattern` | puicbase/base/vlog.cc:148-154 | a pattern without special characters matches itself only |
| `VlogPattern.QuestionMarks` | puicbase/base/vlog.cc:143-147 | question marks match exactly the texts of their number |
| `VlogPattern.SlashesAlike` | puicbase/base/vlog.cc:133-142 | slashes of either kind are the same, in text and pattern |
| `VlogPattern.MatchVlogPattern` | puicbase/base/vlog.cc:128-179 | ends, and returns true if and only if the text can be cut into pieces the pattern's characters stand for |
| `RandUtil.HalfAccepted` | puicbase/base/rand_util.cc:58-73 | at least 2^63 draws are accepted, for every range |
| `RandUtil.OutcomeExactly` | puicbase/base/rand_util.cc:58-73 | the result is the remainder of the first draw below the bound |
| `RandUtil.NoOutcomeExactly` | puicbase/base/rand_util.cc:58-73 | there is none exactly if no draw is below the bound |
| `RandUtil.EveryResidueAlike` | puicbase/base/rand_util.cc:58-73 | every result has the same number of accepted draws |
| `RandUtil.OutcomesAlike` | puicbase/base/rand_util.cc:58-73 | for draw series of any length: exchanging two results is a self-inverse exchange of draw series of the same length |
| `RandUtil.EqualCounts` | puicbase/base/rand_util.cc:58-73 | for every length, any two results come from the same number of draw series |
| `RandUtil.RandGenerator` | puicbase/base/rand_util.cc:58-73 | the result of the first accepted draw |
| `RandUtil.RangeExact` | puicbase/base/rand_util.cc:28-28 | the wrapping unsigned arithmetic gives the true length of the interval, for all ints |
| `RandUtil.SumExact` | puicbase/base/rand_util.cc:31-32 | the conversions back lose nothing |
| `RandUtil.RandInt` | puicbase/base/rand_util.cc:25-36 | lands in the interval |
| `RandUtil.IntOutcomeExactly` | puicbase/base/rand_util.cc:25-36 | the integer is as far above the lower end as the remainder of the first accepted draw |
| `RandUtil.IntegersAlike` | puicbase/base/rand_util.cc:25-36 | for every length, any two integers of the interval come from the same number of draw series |

## Left out

- The 16-bit character variants of the URL functions: the same templates on another character type.
- `CanonOutputT::Append` and the escaping and UTF-8 helpers of the URL code: not used for IP literals.
- Construction and destruction of elements inside containers, iterator generation checks, exceptions, and inserting an element of a container into itself: elements are values.
- Comparison, copying and the initializer-list forms of the containers: they reduce to the operations modelled.
- `std::stable_sort`, `std::unique`, `std::inplace_merge` and `std::lower_bound`: functions with the standard's meaning, not algorithms.
- The agent side of the relay (`puicagent/src/puic_agent.cc`, `puicagent/src/agent_server.cc`), which mirrors the one modelled.
- The scatter list of up to four regions in a relay write: one sequence of readable bytes.
- The return value of `uv_shutdown`, which the code ignores: an outcome of the call; that a shutdown completes is not claimed.
- The proxy header's text, addresses, logging and socket options.
- The contents of packets and the dispatcher behind the listener: who is served on its wakeup is not modelled.
- `small_map`, `linked_list`, `IsNotIn`, HKDF and the log level lookup around the pattern matcher: they would add easier members.
- `RandDouble` and the source of random bytes: draws are a parameter.
- RandUtil.RandGenerator: takes a finite series of draws and may run out of them, because the code's loop need not end.
- Dialer.PuicDialer.Wakeup: what a served session does is a parameter, any steps the protocol allows it.
- CanonOutput.Output.PushBack: drops a character when growth beyond 2^30 is refused, as the code does.
