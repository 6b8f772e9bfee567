# Optikus: a verified model of the hub and its agents

Optikus is a SCADA hub. Agents poll memory and push changes to the hub, which
fans them out to watchers. This project models the state machines that carry
that data and proves what they keep.

| file | what it models |
|---|---|
| `Bytes`, `Decimals` | big-endian words, decimal numbers |
| `Framing` | the frame of a packet on a TCP stream, and what such a stream means |
| `StreamSender` | the ordered sender: ring queue, half-sent frame, immediate sending, resend loop |
| `StreamReceiver` | the receiver that reads a stream piece by piece, as its bytes arrive |
| `MonitorCodec` | the packet of changes, as the agent writes it and the hub reads and rewrites it |
| `AgentReports` | an agent's changes, the packets they travel in, and what the packets taken say once decoded |
| `PolledMemory` | where a monitor points, and what is read there |
| `ChangeDetector` | the agent's rate-limited scan over its monitors |
| `HubValues` | the hub's checks of a decoded record, and what its monitors then show |
| `ArgvRotation`, `OptionGrammar`, `ArgPartition`, `OptionSpelling`, `Getopt` | the permuting option scanner |
| `StrMask` | the `*` matcher |
| `TreeHash` | the tree hash behind the hub's indexes |
| `MonitorTable` | the hub's monitor table over the tree hash |
| `DataRecords` | the hub's read and write requests, their ids and replies |
| `FanOut` | accumulators of changes for watchers and of unregister orders for agents |
| `OoidFactory` | path numbers: the heap, its two indexes, saving and loading |
| `SegmentReport`, `SubjectStates` | the segments packet, and what the hub makes of it |
| `Quarks` | array indexes lifted out of a path, offsets and addresses |
| `Repeater` | the index odometer of the "see" tool, and its runs |
| `BitFields` | writing and reading bit fields in memory |

The sender exists three times in the repository (`subj/subj-network.c`,
`hub/hub-subj.c`, `hub/hub-watch.c`). The copies differ in whether an open
connection is checked and in the resend limit; both are constants of
`StreamSender.Sender`, so what is proved holds of all three.

The receiver is shared in the same way, with `watch/watch-network.c` as a fourth copy.

What comes from outside is a parameter or is chosen freely: how many bytes a
`send` takes, how much has arrived at a `recv`, whether memory can be had, what the clock says, what lies in the
agent's memory, which watcher blocks.

Some promises do not hold of the code as it stands. For each there is a lemma
or a contract that says exactly when they do:

* A retry that fails adds `send`'s -1 to the offset, and a byte is sent twice:
  `StreamSender.Sender.Run`, `StreamSender.FailedRetryDoublesAByte`.
* The sender takes packets that the receiver refuses as too long: `Framing.DeframeExact`.
* A body that has not arrived whole when its header has ends the connection,
  because what is left of it is counted as nothing: `StreamReceiver.Receiver.Run`,
  `StreamReceiver.SurvivesExactly`.
* The hub may look five bytes past a malformed packet of changes, whose buffer
  is two bytes longer than the packet: `MonitorCodec.DecodePacket`, `MonitorCodec.LooksFivePast`.
* A bit field of an unsupported width puts a wrong flag byte on the wire. Alone
  in its packet it is refused; with other changes behind it the packet can pass
  as something else. No packet that holds one decodes to what it was made of:
  `AgentReports.PacketDecodes`, `AgentReports.UnsupportedBitFieldIsMisread`.
* A change counts as reported when its packet is handed over, even if the
  sender refuses it, and is not reported again. What is then seen of the monitor
  is right only if the same had been reported before: `ChangeDetector.Agent.SeenExactly`,
  `ChangeDetector.RefusedIsForgotten`.
* The hub takes the undefined mark of a numeric monitor for a value of a wrong
  length, and drops it with the rest of its packet: `HubValues.AcceptedIsPassing`,
  `HubValues.UndefinedNumberIsStale`, `HubValues.HubShowsExactly`.
* An option left without its argument swallows an operand when the permuted
  list is scanned again: `ArgPartition.PermutingKeepsMeaning`.
* The prefix of the option string is stripped in the first call only; later
  calls take it for an option: `Getopt.Scanner.RunInOrder`,
  `ArgPartition.PrefixMatters`, `ArgPartition.PrefixIsTakenForOption`.
* The matcher is greedy and misses matches of patterns that end in a literal:
  `StrMask.MaskExactly`.
* The tree hash takes 65535 keys and refuses any more: `TreeHash.Tree.Add`.
* A monitor that the index has no room for is reported as failed but stays in
  the table: `MonitorTable.Hub.Register`, `MonitorTable.FailedMonitorStays`.
* A pass over the deferred writes counts only those it sends, so it can drop any
  number of writes whose watcher is gone: `DataRecords.Requests.SecureMoreWrites`,
  `DataRecords.DroppingIsUnlimited`.
* A request whose watcher has gone is still answered when its agent goes down:
  `DataRecords.ReplyToTheGone`.
* A flush that a watcher's sender refuses loses up to 250 records:
  `FanOut.NothingLostExactly`, `FanOut.WatcherSees`.
* A path number is lost when one of the two indexes is full:
  `OoidFactory.Factory.AddOoidPath`, `OoidFactory.Factory.NameOfNumber`.
* Saved paths come back only if each is one word: `OoidFactory.SavedReadsBack`.
* The counter of path numbers comes back only if the numbers never went up by
  half their range at once: `OoidFactory.CounterReloads`.
* The agent prints segment reports with empty names, which the hub refuses:
  `SegmentReport.PrintedReadsBack`.
* A subject that calls itself `???????` is taken for one not heard of:
  `SubjectStates.Domain.HandleSegments`.
* An index of more than 31 bits wraps and names another element:
  `Quarks.IndexesRestore`, `Quarks.WrappedIndexIsAccepted`.
* The error of a bit-field read of a bad width is cleared before the reply, which
  then carries what its buffer held before: `BitFields.Memory.ReadField`.

`dafny verify dfyconfig.toml` checks the whole project.

## Model

| member | source | states |
|---|---|---|
| `Bytes.Be32Digits` | include/optikus/conf-net.h:66-76 | a long goes out as its four digits to the base 256, the highest first |
| `Framing.FrameLayout` | subj/subj-network.c:403-419 | where everything is in a frame: length, type, sender, payload and nothing but zeros behind it, up to an even length |
| `Framing.PrefixDeframes` | subj/subj-network.c:403-419 | whatever prefix of the frames of deliverable packets has arrived, the receiver holds a prefix of the packets, and all of them once everything has arrived |
| `Framing.DeframeExact` | subj/subj-network.c:651-772 | a stream of frames means the packets sent if and only if every payload keeps to the receiver's limit of 8192 |
| `StreamReceiver.BehindFrames` | subj/subj-network.c:651-772 | behind complete frames a stream means what it would mean from its beginning |
| `StreamReceiver.Receiver.ReadHeader` | subj/subj-network.c:683-700 | a header is put together over any number of reads; reading nothing ends the connection in the first read of a call only |
| `StreamReceiver.Receiver.ReadBody` | subj/subj-network.c:714-749 | the payload and the checksum, or why not: memory, or a body that has not arrived whole |
| `StreamReceiver.Receiver.Receive` | subj/subj-network.c:651-772 | in one call, whatever arrives meanwhile, the packets handed on are those of the bytes read; it stops alive when all that has arrived is read and ends in or before a header; a body begun in an earlier call ends the connection |
| `StreamReceiver.Receiver.Run` | hub/hub-subj.c:628-764 | for every stream and all arrivals the connection lives if and only if the stream is sound so far and no call finds it ending inside a body; all packets complete are handed on until then, and none after |
| `StreamReceiver.SurvivesExactly` | hub/hub-watch.c:618-755 | of the frames of deliverable packets it survives exactly the arrivals that end less than six bytes behind a frame |
| `StreamSender.Sender.RetryReput` | subj/subj-network.c:375-395 | a retry leaves wire ++ unsent rest as it was; a failed one lengthens it by one byte; it succeeds exactly when the socket took the whole rest |
| `StreamSender.FailedRetryDoublesAByte` | subj/subj-network.c:383-388 | after a failed retry the last byte sent is sent again, so the frame on the wire is not the frame |
| `StreamSender.Sender.PutFrame` | subj/subj-network.c:403-462 | a new frame ends up on the wire or as the half-sent rest, whole, unless memory or the socket denied it; the connection ends if and only if the frame was cut short within its header or with a broken pipe, and else a denied frame leaves the wire alone |
| `StreamSender.Sender.PokeStream` | subj/subj-network.c:368-463 | one step appends exactly the new frame to wire ++ rest, or nothing; it fails exactly when it was denied or has no data, and ends the connection exactly when a new frame was broken |
| `StreamSender.HeadLeaves` | subj/subj-network.c:484-503 | moving the ring's first frame to the wire keeps the books of the connection |
| `StreamSender.TailJoins` | subj/subj-network.c:602-641 | accepting a packet at the end of the ring keeps the books |
| `StreamSender.Bypass` | subj/subj-network.c:545-600 | the immediate-send shortcut keeps the books, because ring and rest are empty |
| `StreamSender.Sender.Dequeue` | subj/subj-network.c:484-503 | the ring, read from its read index modulo its size, loses its first entry and nothing else |
| `StreamSender.Sender.Enqueue` | subj/subj-network.c:602-641 | the ring gains one entry at its end, with the write index staying (read index + length) modulo size |
| `StreamSender.Sender.SendHead` | subj/subj-network.c:484-503 | an entry leaves the ring exactly when its frame has been taken over |
| `StreamSender.Sender.ResendStream` | subj/subj-network.c:470-508 | a front part of the queue is sent in order; it stops at the first push from outside, as soon as the resend limit is passed, and otherwise only with an empty queue |
| `StreamSender.Sender.SendPacket` | subj/subj-network.c:515-644 | a packet goes past the ring exactly when nothing waits and its size allows it, and else, or if that is denied, into the ring; a refusal has a reason (bad length, closed, full ring, no memory) and each reason refuses |
| `StreamSender.Sender.Run` | hub/hub-subj.c:391-622 | in any run an open connection stays open if and only if no new frame was broken, and then wire ++ rest ++ frames of the ring equals the frames of all accepted packets in order if and only if no retry failed; otherwise it is longer by one byte per failed retry |
| `StreamSender.Sender.DeliveredInOrder` | subj/subj-network.c:515-644 | without failed retries a receiver holds a prefix of the accepted packets, and all of them once the sender is idle |
| `MonitorCodec.Layout` | hub/hub-monitor.c:221-279 | where everything is in a record: object, type, flags with the short length or the high part of a long one, time, low part of a long length, value |
| `MonitorCodec.ReadBack` | hub/hub-monitor.c:385-425 | a record written anywhere in a packet reads back as itself and the reader stops at its end |
| `MonitorCodec.WrittenAsRead` | hub/hub-monitor.c:385-425 | whatever the reader accepts as a record is the bytes of that record |
| `MonitorCodec.DecodeOfEncode` | subj/subj-monitor.c:425-457 | any 1 to 255 sound records decode from their packet as they were |
| `MonitorCodec.EncodeOfDecode` | hub/hub-monitor.c:370-516 | what decodes is the packet of what it decodes to |
| `MonitorCodec.AcceptsExactlyPackets` | hub/hub-monitor.c:506-509 | a byte string is accepted if and only if it is the packet of some list of sound records |
| `MonitorCodec.DecodePacket` | hub/hub-monitor.c:370-516 | the reader's loop over offsets computes the decoding, whatever memory holds behind the packet; it looks at most five bytes past the end, and never past the end of a packet it accepts |
| `MonitorCodec.LooksFivePast` | hub/hub-monitor.c:386-415 | and five it is for a packet of seven bytes that begins a record with time and long form |
| `MonitorCodec.DecodePastEnd` | hub/hub-monitor.c:385-425 | once past the end of the packet nothing is accepted |
| `AgentReports.StringsEqualMeans` | subj/subj-monitor.c:401-424 | two strings are the same when no byte differs that has no NUL in front of it |
| `AgentReports.BytesFollowFormat` | subj/subj-monitor.c:425-457 | the bytes of a change follow the record format if and only if it is not that of an unsupported bit field |
| `AgentReports.PacketDecodes` | subj/subj-monitor.c:425-457 | a packet decodes to the changes it was made of if and only if none of them is such a change |
| `AgentReports.UnsupportedBitFieldIsRefused` | subj/subj-monitor.c:360-424 | a packet of just such a change does not decode |
| `AgentReports.UnsupportedBitFieldIsMisread` | subj/subj-monitor.c:360-457 | one with another change behind it can decode, to two records that nobody sent |
| `AgentReports.DecodedViewIsReplay` | hub/hub-monitor.c:385-425 | packets of supported changes, decoded in order, say what a replay of the changes says |
| `AgentReports.FreshIsReported` | subj/subj-monitor.c:223-257 | of every object whose last report was taken the packets taken show that report |
| `AgentReports.StaleExactly` | subj/subj-monitor.c:223-257 | an object is stale if and only if it was reported in a packet refused and nothing of it was taken since, and then the packets taken show what had been reported before that packet |
| `PolledMemory.Resolve` | subj/subj-monitor.c:269-318 | the switch finds where the four kinds of pointer lead, with null pointers on the way |
| `PolledMemory.TargetMeans` | subj/subj-monitor.c:269-318 | where each kind of pointer leads, by what lies in memory, and which null addresses on the way lead nowhere |
| `PolledMemory.LongInBytes` | subj/subj-monitor.c:278-281 | a pointer is put together from four bytes of memory, in either byte order |
| `PolledMemory.NullMeans` | subj/subj-monitor.c:63-63 | an address is null if it is 0 or at most eight before it |
| `PolledMemory.PlainValue` | subj/subj-monitor.c:327-350 | the value polled of plain data is the bytes at the address |
| `PolledMemory.FieldValue` | subj/subj-monitor.c:343-400 | a bit field polled has the bits that lie in memory, filled up with its sign |
| `ChangeDetector.ChangeMeans` | subj/subj-monitor.c:260-457 | what is reported of a monitor: object, type, and the bytes in memory, or the mark of an address that leads nowhere or of an unsupported bit field |
| `ChangeDetector.PollMonitor` | subj/subj-monitor.c:260-424 | a poll reports exactly when it is forced or differs from what the monitor remembers, reports just what it found, and remembers it |
| `ChangeDetector.PacketBuffer.PutChange` | subj/subj-monitor.c:425-457 | the bytes of a change are appended inside the buffer |
| `ChangeDetector.Agent.Register` | subj/subj-monitor.c:565-656 | a new valid object is added once, at the end, with a forced report pending, its offset added to a plain address and its type known as signed or not; every reason for refusing it is stated |
| `ChangeDetector.Agent.Unregister` | subj/subj-monitor.c:486-506 | exactly that object's monitor leaves the list; the cursor stays on its monitor, or moves on to the next when it stood on the one removed |
| `ChangeDetector.Agent.PollAt` | subj/subj-monitor.c:260-424 | one monitor is polled and no other touched |
| `ChangeDetector.Agent.Visit` | subj/subj-monitor.c:260-457 | exactly the change a monitor owes is put in the buffer, behind those that are there |
| `ChangeDetector.Agent.Flush` | subj/subj-monitor.c:223-257 | the packet handed over holds the pending changes, which count as reported whether or not it is taken |
| `ChangeDetector.Agent.Scan` | subj/subj-monitor.c:183-482 | a scan polls every monitor from its start to its stop just once; what it hands over and holds is what it found, in order, at most 255 changes to a packet; it exceeds the limits on polls and changes by at most one and the limit on bytes by its last packet only, and it stops early only where one of these is exceeded or, which it looks at before every tenth poll, the time is up, and then it does stop |
| `ChangeDetector.Agent.Monitoring` | subj/subj-monitor.c:183-482 | a call resumes at the cursor and leaves it where it stopped, makes progress, keeps the limits of a scan, with the bytes of its packets counted up to the one in which it stops, and hands over each change found once, in the order of the list, and nothing else; it reports success if and only if the list is empty or it had a buffer and no last packet was refused |
| `ChangeDetector.Agent.SeenExactly` | subj/subj-monitor.c:183-482 | the packets taken show the last poll of a monitor if and only if its last report was taken, or it was lost and what had been reported of the monitor before the lost packet agrees with that poll |
| `ChangeDetector.Agent.QuietScan` | subj/subj-monitor.c:401-424 | a scan that finds nothing new hands nothing over, so a report lost is not made good |
| `ChangeDetector.RefusedIsForgotten` | subj/subj-monitor.c:233-257 | a monitor, a refused packet and a scan over a perfect link that leave the monitor unreported |
| `ChangeDetector.Agent.Run` | subj/subj-monitor.c:183-656 | so it is of every monitor after any run of registrations, unregistrations and scans with any limits and any packets refused; while none is refused no object becomes stale |
| `HubValues.Hub.HandleMonitoring` | hub/hub-monitor.c:370-516 | every record is stored and announced up to the first that is refused or cannot be read, also of a packet that does not decode; success is reported if and only if the packet decodes and none is refused |
| `HubValues.JudgeMeans` | hub/hub-monitor.c:418-447 | which records are dropped, which end the packet, and which are stored as undefined |
| `HubValues.StoreMeans` | hub/hub-monitor.c:448-505 | what is stored of a record: type, undefined mark, time, and the bytes in the hub's order; nothing else changes |
| `HubValues.NumbersStayNumbers` | hub/hub-monitor.c:434-480 | whatever records come in, a numeric monitor that holds a number of its length goes on doing so, unless one claims to be a string |
| `HubValues.AcceptedIsPassing` | hub/hub-monitor.c:434-447 | of a packet from an agent that agrees about types and lengths just the part before its first undefined mark of a numeric monitor is accepted |
| `HubValues.MarkStopsThePacket` | hub/hub-monitor.c:443-447 | a packet with such a mark in front changes nothing, though another change stands behind it |
| `HubValues.ShowsDelivered` | hub/hub-monitor.c:448-505 | the hub shows of each object the last change that got that far, in either byte order, or what it held before |
| `HubValues.UndefinedNumberIsStale` | hub/hub-monitor.c:434-447 | a numeric monitor last reported as undefined is never shown so: that report is among those lost |
| `HubValues.HubShowsExactly` | hub/hub-monitor.c:370-516 | what the hub holds of an agent's monitor agrees with its last poll if and only if its last report got that far, or it was lost and what the hub held before the lost report agrees with that poll |
| `ArgvRotation.SwapSegments` | util/util-getopt.c:236-250 | two segments change places in the array and nothing else moves |
| `ArgvRotation.BottomShort` | util/util-getopt.c:227-240 | swapping the short bottom segment with the far end of the top one leaves a smaller exchange to do |
| `ArgvRotation.TopShort` | util/util-getopt.c:241-256 | and so does the mirror image |
| `ArgvRotation.Exchange` | util/util-getopt.c:217-263 | the loop rotates two adjacent segments in place |
| `OptionGrammar.LookupMeans` | util/util-getopt.c:450-482 | a long name stands for the first option it spells, else for the only one it abbreviates; none and several are told apart |
| `OptionGrammar.FindLong` | util/util-getopt.c:450-482 | the search loop computes that look-up |
| `OptionGrammar.DecodeStep` | util/util-getopt.c:446-624 | the code for one step, with its loops, computes the decoding the partition is proved about |
| `OptionSpelling.ShortStep` | util/util-getopt.c:564-624 | a short option alone, with its argument behind it or in the next element, and with an optional one: what is reported, in terms of what the option string says |
| `OptionSpelling.LongStepWith` | util/util-getopt.c:492-517 | of `--name=value` the argument reported is what stands behind the equals sign |
| `OptionSpelling.LongStep` | util/util-getopt.c:519-540 | a long option that needs an argument takes the next element, or is reported as lacking it |
| `OptionSpelling.UnknownStep` | util/util-getopt.c:574-586 | a character that the option string does not list is an error |
| `OptionSpelling.NoSuchName` | util/util-getopt.c:482-562 | a name that stands for no long option, or for several, is an error |
| `ArgPartition.ElementNext` | util/util-getopt.c:484-624 | the next element matters only to an option that takes it as its argument |
| `ArgPartition.ScanIsStablePartition` | util/util-getopt.c:365-429 | options with their arguments, and operands, are a stable partition of the list |
| `OptionSpelling.SpelledIsScanned` | util/util-getopt.c:355-625 | a list written item by item (operands, clusters of flags, short and long options with arguments in every spelling) is read as these items |
| `OptionSpelling.SpelledIsReadInOrder` | util/util-getopt.c:355-625 | the same for a scan that does not permute, where operands are reported with the code 1 or end the scan |
| `ArgPartition.MergeIsPermutation` | util/util-getopt.c:365-429 | such a partition is a permutation |
| `ArgPartition.Rescan` | util/util-getopt.c:365-429 | scanning the options with other operands behind them gives the same options and events |
| `ArgPartition.RescanStarved` | util/util-getopt.c:484-624 | an option without its argument takes whatever is put behind it |
| `ArgPartition.PermutingKeepsMeaning` | util/util-getopt.c:365-429 | the permuted list means what the original did if and only if no option was left without its argument while there were operands |
| `ArgPartition.MoveByMove` | util/util-getopt.c:355-625 | a scan that does not permute is its first move and the scan of what is ahead |
| `ArgPartition.DecodeAlike` | util/util-getopt.c:446-624 | a step reports the same with the prefix left on if and only if it meets the prefix as an option only where it reports just what the prefix then means, and elsewhere misses no argument while a colon stands behind the prefix |
| `ArgPartition.PrefixMatters` | util/util-getopt.c:269-295 | a scan that strips the prefix for its first move only reports what it should if and only if every later move is such a step |
| `ArgPartition.PrefixIsTakenForOption` | util/util-getopt.c:269-295 | with the option string `+a` the list `-a -+` is reported wrongly |
| `Getopt.Scanner.Initialize` | util/util-getopt.c:269-295 | `-` picks the ordering that returns operands in order, `+` the one that stops at them, POSIXLY_CORRECT the latter too, and else argv is permuted |
| `Getopt.Scanner.ExchangeOptions` | util/util-getopt.c:217-263 | options found behind skipped operands are rotated in front of them, and the two marks follow |
| `Getopt.Scanner.SkipOperands` | util/util-getopt.c:371-394 | operands are skipped up to an option or the end, and the invariant of the scan is kept |
| `Getopt.Scanner.NextElement` | util/util-getopt.c:365-429 | at an option the invariant holds; at the end, also by `--`, argv is the finished partition |
| `Getopt.Scanner.Next` | util/util-getopt.c:355-625 | every call keeps the invariant and reports the next event; in the two orderings that do not permute, argv is left alone and the events are those still ahead, one by one |
| `Getopt.Scanner.RunToEof` | util/util-getopt.c:355-625 | over a whole permuting run argv[0] stays, argv becomes options then operands in their original order, ooptind is the first operand, the events are those of the original list, and argv is a permutation of what it was |
| `Getopt.Scanner.RunOverItems` | util/util-getopt.c:355-625 | a run over such a list reports the items one by one and leaves the options in front of the operands |
| `Getopt.Scanner.RunInOrder` | util/util-getopt.c:355-625 | over a whole run in either ordering that does not permute, whether the prefix or POSIXLY_CORRECT chose it, argv stays as it is, ooptind ends where the scan does, and the events are those of a scan that strips the prefix for its first move only; they are the right ones if and only if there is no prefix or no later move is harmed by it |
| `Getopt.PrefixIsForgotten` | util/util-getopt.c:269-295 | after the first call the prefix counts as an option character, and the code of a missing argument is another one if and only if a colon stands behind it |
| `StrMask.StrMask` | util/util-string.c:36-76 | the two moving pointers compute the greedy match |
| `StrMask.GreedySound` | util/util-string.c:36-76 | true means a real match, for every string and pattern |
| `StrMask.GreedyComplete` | util/util-string.c:36-76 | a match is found for every pattern without `*` or ending in one |
| `StrMask.RefusedIsRefused` | util/util-string.c:36-76 | every other pattern has a string that matches and is refused |
| `StrMask.MaskExactly` | util/util-string.c:36-76 | the matcher is right for all strings if and only if the pattern has no `*` or ends in one |
| `TreeHash.NumbersUseLinkZero` | util/util-tree.c:157-188 | numbers under one root agree modulo 256, so only link 0 is taken |
| `TreeHash.HangKeepsWalk` | util/util-tree.c:202-269 | an insert changes no existing search path |
| `TreeHash.HangIsFound` | util/util-tree.c:202-269 | the new key's path ends at the new node |
| `TreeHash.OneMoreKey` | util/util-tree.c:276-326 | so the tree refines the map with that key added |
| `TreeHash.UnlinkedNodeIsHarmless` | util/util-tree.c:202-269 | a node whose number does not fit a ushort is not linked and changes no look-up |
| `TreeHash.Tree.Find` | util/util-tree.c:115-150 | finding is looking up in the map, until memory has run out once |
| `TreeHash.Tree.BranchInsert` | util/util-tree.c:202-269 | inserting succeeds if and only if a ushort can number the node, and then the map has the key |
| `TreeHash.Tree.Add` | util/util-tree.c:276-374 | after any adds and sets the tree is the map; a new key is accepted if and only if there is memory and fewer than 65536 nodes |
| `MonitorTable.AttachedIsSound` | hub/hub-monitor.c:826-890 | attaching a watcher keeps the reference count equal to the occupied slots and adds just that watcher |
| `MonitorTable.DetachedIsSound` | hub/hub-monitor.c:789-822 | detaching one keeps it too and removes just that watcher |
| `MonitorTable.OnlyThisChanges` | hub/hub-monitor.c:826-935 | the relation of objects and watchers changes only through the record that changes |
| `MonitorTable.Hub.Find` | hub/hub-monitor.c:77-91 | the unique live monitor of an object is found, or there is none |
| `MonitorTable.Hub.Allocate` | hub/hub-monitor.c:95-126 | a free slot above 0, growing the table without disturbing it |
| `MonitorTable.Hub.SlotFor` | hub/hub-monitor.c:860-884 | a free slot for a watcher that has none, or the reason why not |
| `MonitorTable.Hub.Register` | hub/hub-monitor.c:826-935 | exactly one pair is added or nothing changes; it succeeds, and the index turns a new monitor away, if and only if the conditions named hold, and then the pair stays although failure is reported; a new monitor waits for its agent if and only if it has an address and the agent is up and busy, and no other does |
| `MonitorTable.FailedMonitorStays` | hub/hub-monitor.c:893-935 | a call that fails and leaves its pair in the table, where it cannot be found |
| `MonitorTable.Hub.Unregister` | hub/hub-monitor.c:789-822 | it succeeds if and only if the pair is there, and removes just it; monitors that stay keep slot and flag |
| `MonitorTable.Hub.RemoveWatch` | hub/hub-monitor.c:631-663 | exactly that watcher's pairs go, and the monitors left empty; their number is returned |
| `MonitorTable.WithoutRelation` | hub/hub-monitor.c:631-663 | taking a watcher out of every record takes just its pairs out of the relation |
| `MonitorTable.Hub.UpdateAddresses` | hub/hub-monitor.c:699-738 | the monitors in the modules given get the addresses of their segments, those that have one are flagged, all others stay as they are, the number concerned is returned and the count of flagged ones stays exact |
| `MonitorTable.Hub.SecureMore` | hub/hub-monitor.c:742-785 | the new value of every slot: in slot order the first 32 flagged monitors whose way is free or whose agent is down lose their flag; their number is returned and is the fall of the count |
| `DataRecords.NextGeneration` | hub/hub-data.c:66-96 | the low word of the counter runs through 1..65535 in a circle |
| `DataRecords.SameGeneration` | hub/hub-data.c:66-96 | two allocations share a generation if and only if they are whole circles apart |
| `DataRecords.LiveIdsDistinct` | hub/hub-data.c:66-96 | live ids are pairwise distinct |
| `DataRecords.StaleIdComesBackLate` | hub/hub-data.c:66-125 | an id given out before names another live request only after a multiple of 65535 further allocations |
| `DataRecords.Requests.Allocate` | hub/hub-data.c:66-96 | a free record gets the next id and is written down for its watcher, no other record changes; it fails if and only if all are busy and the chain cannot grow |
| `DataRecords.Requests.Find` | hub/hub-data.c:116-125 | it succeeds exactly for live ids |
| `DataRecords.Requests.Deallocate` | hub/hub-data.c:100-112 | a record is given back without a reply, for a cause written down, and the deferral count stays exact |
| `DataRecords.Requests.Complete` | hub/hub-data.c:129-146 | a request of the right kind is answered and given back, any other left alone |
| `DataRecords.Requests.HandleAnswer` | hub/hub-data.c:459-531 | an answer is honoured exactly when its id is that of a live request of its kind |
| `DataRecords.Requests.SendSecureWrite` | hub/hub-data.c:216-239 | a write is deferred if and only if it can go and the way is not free; it succeeds when deferred or when it was sent |
| `DataRecords.Requests.SubmitWrite` | hub/hub-data.c:301-455 | a write is turned away for want of a record, answered at once with an error, or left live under its own serial number, deferred if and only if the way is not free; each case exactly when, and no other record changes |
| `DataRecords.Requests.SubmitRead` | hub/hub-data.c:575-668 | a read is turned away, answered at once from a monitor or with an error, or left live; each case exactly when, and no other record changes |
| `DataRecords.Requests.SecureMoreWrites` | hub/hub-data.c:243-297 | a pass sends the first 32 deferred writes whose way is free, in slot order, and returns their number; what it sends stays live and is no longer deferred, unless its watcher has gone, when its record is given back, as are up to there those of agents that are down; no other changes |
| `DataRecords.TouchedBySendingOrDropping` | hub/hub-data.c:243-297 | a pass touches more than 32 records if and only if it drops more than sending leaves of the 32 |
| `DataRecords.DroppingIsUnlimited` | hub/hub-data.c:259-267 | with every agent down all pre-zombies go in one pass, however many there are |
| `DataRecords.Requests.UpdateAddresses` | hub/hub-data.c:797-856 | each request concerned is sent, deferred, or answered with an error, exactly when, and no other changes |
| `DataRecords.Requests.CancelAgent` | hub/hub-data.c:745-766 | every request waiting for the agent is answered, once and to the watcher that asked, and no other, also when that watcher has gone |
| `DataRecords.Requests.CancelWatch` | hub/hub-data.c:770-793 | the watcher's deferred writes whose agent is up become pre-zombies, its other requests go without a reply, and their number is returned |
| `DataRecords.ReplyToTheGone` | hub/hub-data.c:745-793 | a run in which a reply goes to a watcher that has gone |
| `DataRecords.Run` | hub/hub-data.c:66-856 | in any run each request gets at most one reply, which goes to the watcher that asked, and none is forgotten: it is live, or answered, or its watcher has gone, or there was no memory for its reply; live ids are distinct, and the deferral count is the number of deferred records |
| `FanOut.RotateTwice` | hub/hub-util.c:279-313 | turning a value twice leaves it as it was |
| `FanOut.RotateMeans` | hub/hub-util.c:279-313 | the bytes of a number of 2, 4, 8 or 16 bytes change ends, all others stay |
| `FanOut.RotateInPlace` | hub/hub-util.c:279-313 | in place, byte for byte, and no other byte is touched |
| `FanOut.FlushBalances` | hub/hub-monitor.c:153-171 | a flush moves the held records into one packet that decodes to them |
| `FanOut.NothingLostExactly` | hub/hub-monitor.c:153-171 | what was announced is what the watcher reads and what is held for it if and only if no flush was refused; a refused one loses all its records |
| `FanOut.WatcherSees` | hub/hub-monitor.c:153-171 | a watcher sees of every object what it was last told in a packet; once that packet is refused it sees what it had been told before it, until one that speaks of the object is taken |
| `FanOut.AppendBalances` | hub/hub-monitor.c:295-314 | an append keeps announced = handed over ++ held and the size and count bounds |
| `FanOut.AppendTo` | hub/hub-monitor.c:295-314 | a record is appended, after a flush exactly when the accumulator was full or old |
| `FanOut.WriteChange` | hub/hub-monitor.c:221-279 | the bytes the hub writes for a change, by its own branches, are those of the record format |
| `FanOut.FanOut.Flush` | hub/hub-monitor.c:153-171 | one watcher's held records are handed over in one packet, taken or not, and no other watcher is touched |
| `FanOut.FanOut.Announce` | hub/hub-monitor.c:198-314 | every watcher that is to get a change is told one record more, with its object, type, mark and time and the value's bytes in the watcher's order, and no one else; all that was announced is handed over in readable packets or held, and the bounds hold |
| `FanOut.UnregAccum.Flush` | hub/hub-monitor.c:175-194 | the packet is the count and the ids held |
| `FanOut.UnregAccum.Put` | hub/hub-monitor.c:591-627 | ids asked for equal ids sent ++ ids held, in order, with at most 200 held |
| `OoidFactory.CellAt` | hub/hub-ooid.c:75-109 | every entry lies whole at its offset in the heap, and the next starts where it ends |
| `OoidFactory.PathOneMore` | hub/hub-ooid.c:100-103 | a new path keeps the path index right if and only if the index takes it |
| `OoidFactory.IdOneMore` | hub/hub-ooid.c:104-107 | an id keeps the id index right if and only if the index takes it |
| `OoidFactory.LookupsAreInverse` | hub/hub-ooid.c:204-240 | with both indexes right the two look-ups undo each other |
| `OoidFactory.IndexesDetermined` | hub/hub-ooid.c:75-109 | the entries determine both indexes |
| `OoidFactory.AscendingIsFresh` | hub/hub-ooid.c:214-220 | until the counter wraps the next id is a new one |
| `OoidFactory.Factory.AddOoidPath` | hub/hub-ooid.c:75-109 | the entry is always written; OK means both indexes still mirror the heap, which is so if and only if path and id are new and there is room for both |
| `OoidFactory.Factory.FindOoidByName` | hub/hub-ooid.c:204-223 | a listed path has its id, a new one gets the next non-zero id, and without leave to add nothing changes |
| `OoidFactory.Factory.FindNameByOoid` | hub/hub-ooid.c:227-240 | an id has the path of its entry, or none exactly when it is not listed |
| `OoidFactory.Factory.NameOfNumber` | hub/hub-ooid.c:204-240 | the name of the number of a path is the path if and only if it was listed or the id index takes its new id |
| `OoidFactory.SavedReadsBack` | hub/hub-ooid.c:123-165 | saved text reads back as the entries saved if and only if every path is one non-empty word |
| `OoidFactory.LineMeans` | hub/hub-ooid.c:162-162 | a saved line is the number, padded to four columns, and the path |
| `OoidFactory.Factory.Save` | hub/hub-ooid.c:145-168 | walking the heap writes every entry in insertion order |
| `OoidFactory.Factory.Load` | hub/hub-ooid.c:113-141 | every entry of the text is added in order, the counter keeps ahead, and both indexes stay right if and only if the entries are distinct and there is room for them |
| `OoidFactory.CounterReloads` | hub/hub-ooid.c:113-141 | a counter that ran upwards is reloaded as it was if and only if it never rose by half the range of the numbers at once |
| `OoidFactory.CountingStepsAreSmall` | hub/hub-ooid.c:214-220 | and counting never does |
| `OoidFactory.Restart` | hub/hub-ooid.c:172-200 | a factory restarted from what it saved has the same entries and indexes, and if it counted upwards the same counter exactly under that condition |
| `SegmentReport.PrintedReadsBack` | subj/subj-proper.c:422-487 | a printed report is accepted and read back as it was if and only if no name in it is empty |
| `SegmentReport.AcceptedIsPrinted` | hub/hub-subject.c:247-282 | nothing but printed reports is accepted |
| `SegmentReport.Print` | subj/subj-proper.c:422-487 | what is sent is the report's bytes, within 2048; a report is sent if and only if it keeps to its counts and each subject, module and segment has the room asked for it, which 10 bytes to spare guarantee |
| `SegmentReport.CheckReport` | hub/hub-subject.c:247-282 | the first pass accepts exactly what can be read, and looks at most two bytes past the packet, which its buffer has, without minding what is there |
| `SubjectStates.HitsAreListed` | hub/hub-subject.c:300-376 | addresses are reported only for modules of listed subjects |
| `SubjectStates.ModuleOfMeans` | hub/hub-subject.c:319-347 | a module is the first called so, or else the first called so but for `.o` at the end of the name listed |
| `SubjectStates.LastAddress` | hub/hub-subject.c:348-375 | the address that counts for a segment is the one in the last entry of the report that speaks of it, and there is none when no entry does |
| `SubjectStates.CStrMeans` | hub/hub-subject.c:292-298 | a name ends at its first NUL |
| `SubjectStates.StoreTwice` | hub/hub-subject.c:348-375 | storing two runs of addresses in turn is storing their concatenation, where the last one wins |
| `SubjectStates.Domain.SetSubjectState` | hub/hub-subject.c:45-85 | one state changes, and going off blanks just that subject's addresses |
| `SubjectStates.Domain.SetAgentState` | hub/hub-subject.c:89-138 | all of an agent's subjects and no others become unheard of or off, and whoever is off has no addresses |
| `SubjectStates.Domain.LookUpModule` | hub/hub-subject.c:319-347 | a module is found as spelled or else without `.o` |
| `SubjectStates.Domain.TakeSegments` | hub/hub-subject.c:353-375 | the segment loop stores the addresses read and stays inside the packet |
| `SubjectStates.Domain.TakeMods` | hub/hub-subject.c:312-376 | the module loop stores the addresses of all modules read |
| `SubjectStates.Domain.TakeSubjects` | hub/hub-subject.c:292-379 | the subject loop puts every listed subject into its own state |
| `SubjectStates.Domain.TurnOff` | hub/hub-subject.c:380-388 | the agent's subjects not heard of, and no others, go off and lose their addresses |
| `SubjectStates.Domain.HandleSegments` | hub/hub-subject.c:233-395 | a packet that is no report changes nothing; after a clean one every subject of the agent has its own name as state if listed and "" if not, and the agent itself is put back to not heard of; an off subject has no addresses, and a segment has the last address listed for it or the one it had |
| `Quarks.LiftRestores` | hub/hub-quarks.c:317-344 | putting the spelled indexes back for the marks restores the path |
| `Quarks.NoIndexIsLeft` | hub/hub-quarks.c:317-344 | the canonical path has no index in it any more |
| `Quarks.IndexIsSpelled` | hub/hub-quarks.c:317-344 | an index is a bracket, digits, and a bracket |
| `Quarks.RestoreInjective` | hub/hub-quarks.c:317-344 | different indexes make different paths |
| `Quarks.IndexesRestore` | hub/hub-quarks.c:317-346 | putting the extracted integers back restores the path up to leading zeros if and only if every index fits an int |
| `Quarks.WrappedIndexIsAccepted` | hub/hub-quarks.c:317-386 | the path `[4294967296]` is read as index 0, fits every dimension and names element 0 |
| `Quarks.LiftInPlace` | hub/hub-quarks.c:317-346 | the canonical path overwrites the path, the write position never passes the read position, and a fifth index is the only error |
| `Quarks.Quark.CrunchOffset` | hub/hub-quarks.c:375-386 | it succeeds if and only if every index is in its dimension, with off = base + sum of index times coef in 32 bits; otherwise it names the first that is not |
| `Quarks.Quark.RefineAddress` | hub/hub-quarks.c:399-415 | the address is that of a known segment plus the offset, and unknown when the subject is off |
| `Quarks.Locate` | hub/hub-quarks.c:315-388 | it succeeds if and only if at most four indexes are spelled and each is in its dimension, and then gives those indexes and their distance |
| `Repeater.ItemsSpelled` | qforms/oqsee.cpp:842-893 | every spelling of characters, indexes and ranges is read as those items |
| `Repeater.ItemsPrint` | qforms/oqsee.cpp:842-893 | and nothing else is accepted |
| `Repeater.RangesOfItems` | qforms/oqsee.cpp:842-893 | a description has a meaning if and only if no range runs backwards and at most four are ranges proper, and these are its ranges, in order |
| `Repeater.NamesOfDescription` | qforms/oqsee.cpp:842-916 | every name sent is the description with indexes put for its ranges |
| `Repeater.ShowMeans` | qforms/oqsee.cpp:967-967 | what is printed for an index is read as that index |
| `Repeater.RankIsLexicographic` | qforms/oqsee.cpp:949-980 | ranks are in lexicographic order and no two tuples share one |
| `Repeater.TurnRaisesRank` | qforms/oqsee.cpp:955-960 | a turn of the odometer raises the rank by one and leaves the box only at its end |
| `Repeater.AllOnce` | qforms/oqsee.cpp:949-980 | when as many tuples have been sent as there are, each has been sent once, in lexicographic order |
| `Repeater.RunIsDetermined` | qforms/oqsee.cpp:949-1024 | what replies and events explain is one list of names and one end |
| `Repeater.FollowersAreAccepted` | qforms/oqsee.cpp:949-1008 | in a run explained by replies and events every name but the last was done with at once or answered OK, and at its end the last, too |
| `Repeater.EventExplained` | qforms/oqsee.cpp:992-1008 | an event that comes in while a name is waited for leaves the run waiting, cancels it, or lets just the next names out |
| `Repeater.Repeater.Parse` | qforms/oqsee.cpp:836-916 | a description is accepted exactly when it has a meaning, and then format and ranges are that meaning and the odometer stands one before the first tuple |
| `Repeater.Repeater.Turn` | qforms/oqsee.cpp:955-960 | the loop with its carries makes one turn |
| `Repeater.Repeater.Next` | qforms/oqsee.cpp:949-990 | names go out in the order of their ranks until one has to be waited for, one fails, or all are sent |
| `Repeater.Repeater.Init` | qforms/oqsee.cpp:920-945 | a description done without waiting has had every element sent once, in lexicographic order |
| `Repeater.Repeater.Done` | qforms/oqsee.cpp:992-1008 | only the answer to the operation waited for counts; OK lets the next names go out, an error ends the run |
| `Repeater.Repeater.Run` | qforms/oqsee.cpp:920-1024 | over a whole run, whatever answers come in and whether the user stops it, replies and events determine which names are sent and how it ends; when it comes to its end every element was sent once, in lexicographic order, each accepted before the next went out |
| `BitFields.PutBits` | subj/subj-monitor.c:829-892 | a write changes the bits of the field to those of the datum and no others |
| `BitFields.GetBits` | subj/subj-monitor.c:1064-1123 | a read gives the bits of the field, filled up with its sign for a signed type |
| `BitFields.WriteThenRead` | subj/subj-monitor.c:829-1127 | a write and then a read give the low bits of the datum, sign-extended for signed types |
| `BitFields.ApartReadsTheSame` | subj/subj-monitor.c:829-1127 | every disjoint field reads as before |
| `BitFields.ApartWritesCommute` | subj/subj-monitor.c:829-892 | writes to disjoint fields can be made in either order |
| `BitFields.WriteBack` | subj/subj-monitor.c:829-1127 | writing back what was read changes nothing |
| `BitFields.LoadBit` | subj/subj-monitor.c:832-853 | a word loaded has the bits that lie in memory, in either byte order |
| `BitFields.LoadOfStore` | subj/subj-monitor.c:832-853 | a word stored in either byte order loads as it was |
| `BitFields.Memory.WriteField` | subj/subj-monitor.c:829-897 | in memory the bits of the field become those of the datum, all other bits of the word and all bytes around it stay; a bad width is an error and changes nothing |
| `BitFields.Memory.ReadField` | subj/subj-monitor.c:1064-1127 | the reply is the id, no error, the length and that many bytes: of a good width each bit is the bit of the field in memory, or its sign behind the field; of a bad width they are what the reply buffer held before |

## Left out

- Sockets, select, clocks, logging, files and malloc: their outcomes are parameters.
- The datagram path of the sender and its checksums, which are switched off in `include/optikus/lang.h`.
- StreamReceiver.Receiver.Receive: the sender's id in the header, the clock and the handling of a packet are left out; a `recv` into a null pointer, or of nothing, is taken to fail.
- Message classes, subject waiters (the loop of `ohubSetAgentState` for an agent that comes up) and end-to-end agreement of registrations between hub and agent.
- Type conversion, time tables, ini files, info replies, all widgets and the Perl bindings.
- HubValues.HubShowsExactly: the hub's monitors are fixed during a run, it handles exactly the packets taken, and memory for strings can be had.
- ChangeDetector.PollMonitor: memory stands still during a scan, and a shift by 32 bits or more, which C leaves open, may give anything.
- The text of getopt's error messages, `ooptopt` and `longind`.
- TreeHash.Tree.Add: leaves out a fence other than 0, which no caller uses, the depth statistic and the growth of the string buffer.
- Strings are taken to hold no NUL, as C strings do; `strcmp` may be any comparison that is zero just for equal strings.
- MonitorTable.Hub.UpdateAddresses: a monitor's quark is given beside the table, by slot.
- DataRecords.Requests.UpdateAddresses: which requests are in the modules concerned, with an address and an agent that is up, is a parameter.
- MonitorTable.Hub.SecureMore: what is sent to the agent is left out.
- DataRecords.Run: request serials are unbounded; ids wrap as in the source.
- OoidFactory.Factory.Load: lines longer than the reader's path buffer, a text with NULs and a broken file are left out; text is read by `OoidFactory.ScanEntry`, which stands for fscanf.
- FanOut.FanOut.Announce: whether a flushed packet is taken is a parameter; `StreamSender` models the sender.
- SegmentReport.CheckReport: a packet of length 0 has no receive buffer in the source, which reads its first byte all the same; it and `SubjectStates.Domain.HandleSegments` and `MonitorCodec.DecodePacket` begin at length 1.
- SubjectStates.Domain.HandleSegments: the notices it sends are left out; subject names of a domain are taken to be non-empty.
- SegmentReport.Print: names are taken to be shorter than 40 bytes, as their declarations say.
- Quarks.Locate: the length and metacharacter checks, the split at `@` and `/` and the search for the record are left out; a path is the string behind them.
- Repeater.Repeater.Parse: indexes are unbounded, so overflow of `int` is left out, and so is a `%` in a description.
- Repeater.Repeater.Run: what the view makes of a name at once is a parameter; the numbers of operations are taken to be new ones.
- Repeater.Repeater.Next: a description without ranges is no repeater for its callers and is never started.
- BitFields.Memory.WriteField: the plain copies for values that are no bit fields are left out.
