# Verification of istgt's protocol cores

istgt is an iSCSI target (RFC 3720) with an SPC-3/SBC-2 disk behind it. This
project models the self-contained machines inside it and proves what they are
for. Each machine is written in the form the source has: classes whose methods
update fields, arrays shifted in place, linked nodes, loops over buffers. Every
such method is proved against a function of its inputs or of the old state, or
against a history of what went over the wire, and the promises of the source are
proved about those functions and histories for all inputs, all runs and all ways
a transport can cut the octets.

`dafny verify dfyconfig.toml` checks everything. Nothing here is executed.

| file | what it models |
|---|---|
| `Bytes.dfy`, `Names.dfy`, `Numbers.dfy` | octets and little-endian words; names compared without regard to case; serial numbers |
| `Reflection.dfy`, `Crc32c.dfy` | the bit reversal, the CRC32C register, its table and bit-serial forms, padding, error detection |
| `IscsiPdu.dfy`, `PduTransport.dfy` | the PDU on the wire and what a reader makes of it; writer and reader over a socket that moves the octets in arbitrary portions |
| `TransferTrace.dfy`, `Reception.dfy`, `BurstRules.dfy`, `DataOut.dfy`, `Writes.dfy` | the rules for Data-Out and R2T over a history; when a write ends well, and an initiator that keeps to the rules; the same said of the bursts alone; the R2T task table, the Data-Out handler and the receive loop that share it; whole writes |
| `CommandWindow.dfy`, `DataIn.dfy` | CmdSN/StatSN windows on serial numbers; the Data-In splitter and the one status per command |
| `Reservation.dfy` | persistent reservations and RESERVE/RELEASE(6) on top |
| `LinkedQueue.dfy`, `CommandQueue.dfy` | the circular queue; clearing it through a second one; the worker that serves the LUNs in turn |
| `Md5.dfy` | streaming MD5: buffering, bit count, padding |
| `WriteSame.dfy` | chunked WRITE SAME against one block at a time |
| `Tsih.dfy` | the allocator of session handles |
| `TextParams.dfy`, `Tokenizer.dfy` | key=value parameters and their text; the in-place quoting tokenizer |

## What came out

Where a promise does not hold of the code on every input, the code is kept as it
is and the exact condition is proved.

- The SN32 window test accepts exactly ExpCmdSN..MaxCmdSN if and only if the
  window holds 2 to 2^31 + 1 commands.
- The command window stays balanced over every run whose requests carry ExpCmdSN
  as it stands. An initiator numbers ahead of that while the sender thread, which
  is on by default (src/istgt/config.h:4), still has a response to number. A run as
  the initiator numbers it stays balanced exactly when no SCSI command and no task
  management request arrives while a response to a non-immediate NOP-Out or task
  management request waits for the sender thread; without the sender thread every
  such run does. Three requests in order are enough to break it and to have the
  third refused.
- Otherwise out of order, a SCSI command keeps the balance exactly when the window
  was not empty and the command does not move ExpCmdSN forward; a task management
  request always breaks it, because its CmdSN overwrites ExpCmdSN.
- A write that resumes from the R2T table sends its next R2T while the first
  burst is still open exactly when FirstBurstLength + MaxBurstLength octets are
  in and that burst is neither filled nor closed; this needs immediate data
  longer than FirstBurstLength. Number, range, start and bound of every R2T are
  right on every run all the same, also when the transfer fails.
- Whatever comes in, a write that is to take data from the socket ends well exactly
  when the PDUs of other commands are in order and its own fall into bursts up to the
  end: continuous, numbered from 0 in each burst, F on the last PDU of a burst and on
  no other, and always on the PDU that fills it. A burst may stop short of what was asked, and
  it may run past it before it is closed, which the code does not refuse. A write whose
  data all came with the command ends well exactly when F is set and the data keeps to
  FirstBurstLength; it leaves the socket alone.
- From an initiator that keeps to the rules a write ends well, however it cuts its
  bursts and whatever orderly PDUs of other commands come in between, exactly when the
  target asks for all of the data: with InitialR2T=Yes, or with immediate data that fills
  the first burst. Then the buffer is its data, also when any part of the first
  burst came in while the command waited for its turn. Unsolicited Data-Out carries the
  reserved transfer tag 0xffffffff, which the loop does not take for its own: no R2T
  ever follows and the write never ends well. The configuration refuses
  InitialR2T=No (src/istgt/istgt_core.c:718-724, src/istgt/istgt_lu.c:1057-1063), so
  the shipped target always asks.
- Whatever follows on the stream, a PDU is read back and exactly the rest is left if
  and only if it is within the segment limit and was sent with the digests that the
  reader takes off the stream; a Login Response on a connection with digests was not.
- REGISTER, RESERVE, RELEASE, CLEAR and REGISTER AND IGNORE change nothing
  unless they end GOOD. PREEMPT removes registrations before it checks scope and
  type and takes over before it aborts: it fails and still changes something exactly
  when it gets as far as taking over and then either scope or type is wrong and a
  registration matches the removal, or the abort it asks for does not go through,
  which takes a failure to destroy or to enqueue a task.
- A RESERVE(6) fails and still changes something exactly when its key is 0 and the
  port is registered, or when there is room to register and the reservation belongs
  to another key or port. A RELEASE(6) that fails changes nothing.
- A reservation changes hands or ends only by its holder's release, by CLEAR or a
  preemption of a registered nexus, or by a registration that names its key: REGISTER
  AND IGNORE EXISTING KEY does not look whose key it names, so any port can change the
  key of the reservation with it.
- StatSN counts the statuses and responses numbered since login at every moment of a
  run exactly when no request acknowledges one that has not been numbered: then any
  fewer than 2^32 consecutive ones carry different numbers, one after the other.
- The bit count of MD5 survives an update exactly when the update has fewer than
  2^32 bits modulo 2^64.
- The tokenizer gives back a quoted list exactly when no word contains a newline:
  a newline ends the scan even inside quotes.
- A written parameter text gives back its pairs exactly when they are short
  enough and no two keys are equal in the comparison of the list, which takes the
  first character exactly and the rest without regard to case.
- Destroying a queue leaves its counter, so the queue counts right again only if
  it was empty.

## Model

| member | source | states |
|---|---|---|
| `Reflection.Reflect` | src/istgt/istgt_crc32c.c:52-63 | bit j of the result is bit n-1-j of the argument for each of its n low bits, every other bit is 0, and a width outside 1..32 gives 0 |
| `Reflection.ReversedUnique` | src/istgt/istgt_crc32c.c:52-63 | only one word is the reversal of a given one |
| `Reflection.ReflectPolynomial` | src/istgt/istgt_crc32c.c:71 | the reversed generator of RFC 3720 is the constant 0x82f63b78 of the register |
| `Crc32c.ClockLinear` | src/istgt/istgt_crc32c.c:112-116 | one step of the register is linear over exclusive-or |
| `Crc32c.FeedInjective` | src/istgt/istgt_crc32c.c:106-121 | two different registers stay different whatever bits follow |
| `Crc32c.FeedWindow` | src/istgt/istgt_crc32c.c:106-121 | feeding up to 32 bits is one exclusive-or with them followed by that many steps |
| `Crc32c.BurstChangesRegister` | src/istgt/istgt_crc32c.c:87-121 | any change confined to 32 consecutive bits changes the register |
| `Crc32c.BitBurstDetected` | src/istgt/istgt_crc32c.c:147-157 | two messages of one length that differ only inside 32 consecutive bits have different digests |
| `Crc32c.OctetBurstDetected` | src/istgt/istgt_crc32c.c:147-157 | the same for a window of four consecutive octets |
| `Crc32c.ZeroVector` | src/istgt/istgt_crc32c.c:147-157 | the digest of 32 octets of zeros is the one of appendix B.4 of RFC 3720 |
| `Crc32c.Residue` | src/istgt/istgt_iscsi.c:116-127 | a message of whole words with its digest behind it leaves the same register whatever the message |
| `Crc32c.UpdateConcat` | src/istgt/istgt_crc32c.c:87-121 | updating over a concatenation is updating piece by piece |
| `Crc32c.OctetClocks` | src/istgt/istgt_crc32c.c:108 | eight steps act through the low octet alone and move the others down, which is why a table of 256 entries is enough |
| `Crc32c.TableStep` | src/istgt/istgt_crc32c.c:108-118 | one table step equals the eight bit steps of that octet, for every register and octet |
| `Crc32c.UpdateBitSerial` | src/istgt/istgt_crc32c.c:103-121 | the bit-serial loop computes the register of the reference for every buffer and start value |
| `Crc32c.Engine.constructor` | src/istgt/istgt_crc32c.c:66-84 | the set-up loops build the table whose entry i is eight steps of i |
| `Crc32c.Engine.Entry` | src/istgt/istgt_crc32c.c:73-80 | the inner loop of the set-up is eight steps of the register |
| `Crc32c.Engine.UpdateCrc` | src/istgt/istgt_crc32c.c:87-121 | the table loop computes the register of the reference, hence the same as the bit-serial one |
| `Crc32c.Engine.Fixup` | src/istgt/istgt_crc32c.c:124-145 | the fixup feeds exactly the zeros missing to a multiple of four |
| `Crc32c.Engine.Digest` | src/istgt/istgt_crc32c.c:147-157 | the result is the CRC of the message padded with zeros to a multiple of four |
| `Crc32c.Engine.HeaderDigest` | src/istgt/istgt_iscsi.c:303-312 | the incremental digest over both headers equals the digest of their concatenation |
| `IscsiPdu.RoundTrip` | src/istgt/istgt_iscsi.c:203-329 | a PDU that is not a Login Response, followed by anything, is read back with its announced octets and leaves exactly the rest, under every digest setting |
| `IscsiPdu.StreamRoundTrip` | src/istgt/istgt_iscsi.c:149-330 | PDUs written back to back are read back one by one, in order |
| `IscsiPdu.ReadBackIff` | src/istgt/istgt_iscsi.c:203-329 | whatever follows on the stream, a PDU is read back and exactly the rest is left if and only if it is within the segment limit and was sent with the digests the reader takes off |
| `IscsiPdu.AcceptedAloneIff` | src/istgt/istgt_iscsi.c:197-200 | when nothing follows, only what is read back is accepted at all |
| `IscsiPdu.UnsentDigestsMissed` | src/istgt/istgt_iscsi.c:513-518 | sent without digests that the reader waits for, a PDU is not read back whatever follows; an accepting reader has taken at least four octets of what follows for digest words |
| `IscsiPdu.DataLengthIff` | src/istgt/istgt_misc.h:40-72 | the length read from octets 5 to 7 is the one written there, most significant octet first, and no other |
| `IscsiPdu.OpcodeIs` | src/istgt/istgt_iscsi.c:513 | the opcode is read from the low six bits of octet 0, whatever the I bit |
| `IscsiPdu.CarriesIff` | src/istgt/istgt_iscsi.c:513-570 | writer and reader agree on the digests exactly when the PDU is no Login Response or nothing of it has a digest |
| `IscsiPdu.DamagedDataDetected` | src/istgt/istgt_iscsi.c:320-327 | damage within four consecutive octets of the data segment is reported as a data digest error |
| `IscsiPdu.DamagedHeaderDetected` | src/istgt/istgt_iscsi.c:299-319 | the same for the two headers as long as the length fields survive |
| `PduTransport.Advance` | src/istgt/istgt_iscsi.c:590-600 | the adjustment after a partial transfer leaves exactly the places not yet moved, in order |
| `PduTransport.WriteAll` | src/istgt/istgt_iscsi.c:572-601 | every octet goes out once and in order, whatever the portions; the loop succeeds exactly when the transport moves them all; what was sent is always a prefix |
| `PduTransport.ReadAll` | src/istgt/istgt_iscsi.c:260-296 | the vector is filled from the stream once and in order, and the loop succeeds exactly when the octets are there and the transport keeps giving some |
| `PduTransport.DeliversIff` | src/istgt/istgt_iscsi.c:574-601 | a transport delivers exactly when its first transfers, none of them failing, add up to the octets |
| `PduTransport.WritePdu` | src/istgt/istgt_iscsi.c:494-604 | the octets of the PDU with its digests go out, or an error is returned and only a prefix went out |
| `PduTransport.WriteFive` | src/istgt/istgt_iscsi.c:500-601 | the five buffers of the writer go out back to back |
| `PduTransport.ReadPdu` | src/istgt/istgt_iscsi.c:149-330 | the reader returns exactly what the parser of the stream says and leaves the rest, or an error exactly when that fails; the segments are as long as the length octets say, the data rounded up to a multiple of four |
| `PduTransport.Exchange` | src/istgt/istgt_iscsi.c:149-604 | a PDU written to one socket and read from another, each with its own portioning: it arrives exactly when both transports deliver, the segment is within the limit and the digests are those the reader waits for, and then it is the announced PDU with as much data as its length octets say |
| `PduTransport.ReadSegments` | src/istgt/istgt_iscsi.c:203-329 | the part behind the basic header, for every portioning of the reads |
| `PduTransport.CheckDigests` | src/istgt/istgt_iscsi.c:298-327 | both digest tests pass exactly when the received words are the digests of the received segments |
| `PduTransport.HeaderCrc` | src/istgt/istgt_iscsi.c:533-546 | both branches, with and without an additional header, give the digest of the two headers |
| `PduTransport.MakeHeaderDigest` | src/istgt/istgt_iscsi.c:530-553 | the digest word of the headers, or an empty entry when the digest is off |
| `PduTransport.MakeDataDigest` | src/istgt/istgt_iscsi.c:560-570 | the same for the padded data segment, which has none when it is empty |
| `PduTransport.MakeDigestWord` | src/istgt/istgt_iscsi.c:116-120 | the word goes out least significant octet first |
| `PduTransport.ReadFour` | src/istgt/istgt_iscsi.c:213-296 | the four buffers of the reader are filled from the stream back to back |
| `PduTransport.Writev` | src/istgt/istgt_iscsi.c:578 | one gathering write moves a prefix of what is left |
| `PduTransport.Readv` | src/istgt/istgt_iscsi.c:266 | one scattering read fills the next places in order |
| `TransferTrace.PayloadPlaced` | src/istgt/istgt_iscsi.c:3846-3876 | each accepted payload stands in the assembled data exactly at the offset its PDU announced: no gap and no overlap |
| `TransferTrace.RequestNumbered` | src/istgt/istgt_iscsi.c:3911-3914 | whatever the initiator sends and however the transfer ends, R2TSN runs 0, 1, 2, ...; each R2T asks for a nonempty range of at most MaxBurstLength that starts at the octets received so far and stays in the transfer |
| `TransferTrace.DisciplinedPrefix` | src/istgt/istgt_iscsi.c:4059-4089 | the rules hold at every moment of a history that obeys them at its end |
| `TransferTrace.Unrelated` | src/istgt/istgt_iscsi.c:4113-4129 | an event of another command changes nothing for this one |
| `TransferTrace.NoneAsked` | src/istgt/istgt_iscsi.c:4060-4061 | in an ordered history without InitialR2T no R2T goes out before the first burst is full |
| `DataOut.R2tTask.constructor` | src/istgt/istgt_iscsi.c:3658-3673 | a new entry holds the immediate data and fresh counters |
| `DataOut.Connection.GetTransferTask` | src/istgt/istgt_iscsi.c:3596-3625 | the entry with a transfer tag, or none if there is none |
| `DataOut.Connection.RemoveAt` | src/istgt/istgt_iscsi.c:3721-3727 | the shifting loop removes one entry and keeps the order of the others |
| `DataOut.Connection.DelTransferTask` | src/istgt/istgt_iscsi.c:3698-3729 | the given entry goes, every other one stays consistent with the history |
| `DataOut.Connection.ClearTransferTask` | src/istgt/istgt_iscsi.c:3731-3756 | the first entry with a CmdSN goes, or nothing changes if there is none |
| `DataOut.Connection.ClearAllTransferTasks` | src/istgt/istgt_iscsi.c:3758-3772 | the table is empty afterwards |
| `DataOut.Connection.SendR2t` | src/istgt/istgt_iscsi.c:3878-3923 | one R2T goes out with the current R2TSN, which then advances modulo 2^32 |
| `DataOut.Connection.AddTransferTask` | src/istgt/istgt_iscsi.c:3627-3696 | an entry and its first R2T appear exactly when there is room and the immediate data fills the first burst; every entry stays consistent with its own history |
| `DataOut.Connection.OpData` | src/istgt/istgt_iscsi.c:3774-3876 | a Data-Out for no entry is rejected, one that is not next is an error, any other extends its own entry and no other |
| `DataOut.Connection.StoreNext` | src/istgt/istgt_iscsi.c:3868-3874 | the copy and the counters keep an entry consistent with the history |
| `DataOut.Connection.StoreAt` | src/istgt/istgt_iscsi.c:3868-3876 | the next PDU of an entry moves that entry and no other, and all stay consistent |
| `DataOut.Connection.HandOver` | src/istgt/istgt_iscsi.c:4113-4177 | a PDU of another command goes to the Data-Out handler or the queue of PDUs put aside, and fails exactly when those do |
| `DataOut.Connection.AskIfDue` | src/istgt/istgt_iscsi.c:4059-4089 | the R2T at the head of the loop is the next one, and early exactly if the last burst is open |
| `DataOut.Connection.TakeOwn` | src/istgt/istgt_iscsi.c:4187-4255 | the checks, the copy and the burst rules on a Data-Out of the command itself, accepted exactly when they allow it; no PDU, right or wrong, changes that the R2Ts sent were right |
| `DataOut.Connection.TakePdu` | src/istgt/istgt_iscsi.c:4091-4255 | one PDU of the loop keeps the rest of the verdict unchanged |
| `DataOut.Connection.ReceiveLoop` | src/istgt/istgt_iscsi.c:4053-4272 | on success the buffer is the immediate data and every payload of this command, with the socket's PDUs all accounted for and no R2T out of order; on every exit, failures included, each R2T sent has the right number, range, start and bound; it succeeds exactly when the PDUs satisfy Succeeds |
| `DataOut.Connection.ResumeTransfer` | src/istgt/istgt_iscsi.c:3985-4031 | the same for a command that resumes from the table |
| `DataOut.Connection.FreshTransfer` | src/istgt/istgt_iscsi.c:4033-4286 | the same for a command without an entry |
| `DataOut.Connection.TransferOut` | src/istgt/istgt_iscsi.c:3925-4287 | on success the first transfer_len octets are the command's immediate data followed by its own payloads in order, from whichever of the two paths; it succeeds exactly when the PDUs on the socket say so; a transfer that was incomplete ends at exactly transfer_len; on every exit each R2T sent has the right number, range, start and bound, and R2Ts were in order exactly if the resumed transfer did not ask too early |
| `DataOut.Connection.NeverTooEarly` | src/istgt/istgt_iscsi.c:4013-4018 | with immediate data of at most FirstBurstLength no R2T goes out before the previous burst was filled or closed |
| `DataOut.Connection.TooEarlyAfterLongImmediate` | src/istgt/istgt_iscsi.c:4014-4017 | the history of that run at which the guard is met |
| `DataOut.Connection.FirstBurstOver` | src/istgt/istgt_iscsi.c:4014-4017 | once FirstBurstLength + MaxBurstLength octets are in, the first burst is over, if the immediate data kept to FirstBurstLength |
| `Reception.OwnStep` | src/istgt/istgt_iscsi.c:4187-4255 | the next segment of a burst is accepted and leaves the loop inside the burst or between two |
| `Reception.NextBurst` | src/istgt/istgt_iscsi.c:4059-4086 | between two bursts the loop asks for the next range |
| `Reception.BurstSucceeds` | src/istgt/istgt_iscsi.c:4053-4265 | from anywhere inside a burst that was asked for, for every way of cutting the rest and every orderly interleaving with other commands, the loop reaches the end of the write |
| `Reception.BoundarySucceeds` | src/istgt/istgt_iscsi.c:4053-4265 | and so it does from between two bursts |
| `Reception.FreshSucceeds` | src/istgt/istgt_iscsi.c:4033-4272 | a write whose data behind the immediate part is asked for ends well if the initiator keeps to the rules |
| `Reception.NothingTaken` | src/istgt/istgt_iscsi.c:4112-4130 | without a PDU that the loop takes for its own the write does not end well |
| `Reception.OwnOfConversation` | src/istgt/istgt_iscsi.c:4127-4134 | of what a rule-keeping initiator sends the loop takes all if it asks for all, and nothing if the initiator sends unsolicited data |
| `Reception.FreshSucceedsIff` | src/istgt/istgt_iscsi.c:4033-4272 | a write of a rule-keeping initiator ends well exactly when InitialR2T is set or the immediate data fills the first burst |
| `Reception.ResumedSucceeds` | src/istgt/istgt_iscsi.c:3985-4031 | so does one that resumes after any part of its first burst went to the Data-Out handler |
| `Reception.OwnNext` | src/istgt/istgt_iscsi.c:3843-3874 | the next own PDU of a waiting write continues its payload and leaves the rest of the conversation |
| `BurstRules.FreshIff` | src/istgt/istgt_iscsi.c:4033-4272 | whatever comes in, a write without a table entry ends well exactly when some first PDUs are, for other commands, in order and, of its own, bursts up to the end of the write, preceded by data that comes unasked where the initiator may begin with it |
| `BurstRules.ResumedIff` | src/istgt/istgt_iscsi.c:4013-4031 | the same for one that resumes from its table entry |
| `BurstRules.BurstsFound` | src/istgt/istgt_iscsi.c:4053-4272 | from inside a burst: a loop that ends well has taken bursts up to the end of the write |
| `BurstRules.BurstsTaken` | src/istgt/istgt_iscsi.c:4053-4272 | and such bursts bring it there |
| `BurstRules.StartFound` | src/istgt/istgt_iscsi.c:4053-4272 | the same from where the initiator sends unasked |
| `BurstRules.StartTaken` | src/istgt/istgt_iscsi.c:4053-4272 | and back |
| `BurstRules.OwnIff` | src/istgt/istgt_iscsi.c:4187-4255 | inside a burst a Data-Out is taken exactly when its number and place are due and F is set where the burst is filled |
| `BurstRules.UnaskedIff` | src/istgt/istgt_iscsi.c:4187-4255 | unasked data is taken exactly up to FirstBurstLength |
| `Reception.ReceivedIs` | src/istgt/istgt_iscsi.c:4230-4231 | what a history received for a command is the data of its own PDUs in order |
| `Reception.ConversationOctets` | src/istgt/istgt_iscsi.c:4059-4086 | the bursts that were asked for carry exactly the part of the payload that is not there yet |
| `Reception.TakenOctets` | src/istgt/istgt_iscsi.c:4265 | however many PDUs the loop took, the octets that make up the length are that part |
| `Writes.Delivered` | src/istgt/istgt_iscsi.c:3925-4287 | a complete buffer is the payload the initiator set out to write |
| `Writes.NothingDelivered` | src/istgt/istgt_iscsi.c:4060-4061 | when the loop takes no PDU for its own and unsolicited data was due, no R2T goes out |
| `Writes.WriteFresh` | src/istgt/istgt_iscsi.c:4033-4286 | every write without a table entry: the exact condition for return value 0, by the command and the PDUs on the socket; when all of the data came with the command that is its F bit and FirstBurstLength, the buffer is the data and the socket is left alone |
| `Writes.WriteResumed` | src/istgt/istgt_iscsi.c:3985-4031 | the same for every write with one |
| `Writes.WriteByRules` | src/istgt/istgt_iscsi.c:4033-4286 | a write of a rule-keeping initiator returns 0 exactly when the target asks for all of its data, and then the buffer holds it octet for octet; otherwise no R2T ever goes out for it |
| `Writes.ResumedByRules` | src/istgt/istgt_iscsi.c:3985-4031 | a write that resumes from its table entry, complete or not, returns 0 with its data in the buffer |
| `Writes.WholeWrite` | src/istgt/istgt_iscsi.c:3627-4287 | a whole write whose immediate data fills the first burst: the command gets its entry, any part of the first burst goes to the Data-Out handler among PDUs of other commands, and the transfer returns 0 with the data in the buffer octet for octet |
| `Writes.TakeEarly` | src/istgt/istgt_iscsi.c:3774-3876 | each such PDU leaves what has come in a prefix of the payload and the rest still to come |
| `Writes.StandsNext` | src/istgt/istgt_iscsi.c:3843-3874 | the next segment of the first burst, or an orderly PDU of another command, is accepted and moves only its own entry |
| `Writes.AskedTwice` | src/istgt/istgt_iscsi.c:4059-4061 | with InitialR2T only an R2T behind another one can be out of order |
| `Writes.AskedTooEarly` | src/istgt/istgt_iscsi.c:4014-4017 | a run of the constructor, the command handler and the transfer in which two R2Ts go out of order, with an empty socket before anything has come in |
| `CommandWindow.CompareByDistance` | src/istgt/istgt_iscsi.c:60-73 | the two comparisons are the distance the short way round, opposite to each other, and neither holds at exactly 2^31 |
| `CommandWindow.AdmitsExactlyTheWindow` | src/istgt/istgt_iscsi.c:2942-2949 | the test accepts exactly ExpCmdSN..MaxCmdSN if and only if the window holds 2 to 2^31 + 1 commands |
| `CommandWindow.LoginConserves` | src/istgt/istgt_iscsi.c:1973-1979 | after login the window holds queue_depth commands |
| `CommandWindow.StepConserves` | src/istgt/istgt_iscsi.c:2941-2994 | every request that carries ExpCmdSN, every status and every queued response keeps window width plus unanswered commands equal to queue_depth |
| `CommandWindow.RunConserves` | src/istgt/istgt_iscsi.c:2941-2994 | so does every run of them, through any number of wrap-arounds |
| `CommandWindow.UnansweredBounded` | src/istgt/istgt_iscsi.c:2941-2994 | in such a run never more than queue_depth commands wait for a status |
| `CommandWindow.ScsiConservesIff` | src/istgt/istgt_iscsi.c:2951-2954 | out of order, when an accepted SCSI command keeps the balance |
| `CommandWindow.TaskConservesIff` | src/istgt/istgt_iscsi.c:3304-3307 | a task management request keeps it exactly when its CmdSN is ExpCmdSN |
| `CommandWindow.NumberedScsiIff` | src/istgt/istgt_iscsi.c:2951-2954 | a SCSI command with the initiator's next number keeps the balance exactly when no response waits to be numbered |
| `CommandWindow.NumberedRunIff` | src/istgt/istgt_iscsi.c:338-369 | a run as the initiator numbers it keeps the balance at every moment exactly when no SCSI command or task management request arrives while a non-immediate response waits for the sender thread |
| `CommandWindow.NumberedUnanswered` | src/istgt/istgt_iscsi.c:2941-2994 | in such a run, and in every run without the sender thread, never more than queue_depth commands wait for a status |
| `CommandWindow.NothingWaits` | src/istgt/istgt_iscsi.c:3554-3567 | without the sender thread no response waits |
| `CommandWindow.ImpatientRun` | src/istgt/istgt_iscsi.c:2942-2954 | three requests in order: the second breaks the balance, the third is refused |
| `CommandWindow.StepCountsIff` | src/istgt/istgt_iscsi.c:2785-2787 | an event moves StatSN by the number it uses exactly when it acknowledges nothing that has not been numbered |
| `CommandWindow.CountedRunIff` | src/istgt/istgt_iscsi.c:2785-2787 | over every run StatSN is the first one and the numbers used since, at every moment, exactly when no request acknowledges ahead |
| `CommandWindow.StatSNsRun` | src/istgt/istgt_iscsi.c:3109-3111 | the StatSNs that go out in such a run follow each other without a gap |
| `CommandWindow.StatusesDiffer` | src/istgt/istgt_iscsi.c:3228-3230 | from login on any fewer than 2^32 consecutive ones differ |
| `CommandWindow.BuiltMoves` | src/istgt/istgt_iscsi.c:3228-3237 | a status uses one StatSN and opens the window by one command unless its own was immediate |
| `CommandWindow.LagsByDistance` | src/istgt/istgt_iscsi.c:2965-2979 | the lag test as a number of unacknowledged statuses |
| `CommandWindow.SlowRefusedIff` | src/istgt/istgt_iscsi.c:2890-2979 | a command with ExpCmdSN is refused exactly when the window is empty or more statuses are unacknowledged than window and queue_depth hold |
| `CommandWindow.TakenInWindow` | src/istgt/istgt_iscsi.c:2941-2958 | only commands of the window are taken, immediate ones only with ExpCmdSN |
| `CommandWindow.Session.constructor` | src/istgt/istgt_iscsi.c:1973-1979 | the counters after a leading login |
| `CommandWindow.Session.Acknowledge` | src/istgt/istgt_iscsi.c:2960-2979 | a later ExpStatSN moves StatSN, one that lags behind the window is refused |
| `CommandWindow.Session.OpScsi` | src/istgt/istgt_iscsi.c:2890-2994 | the handler takes the step of the state machine, or refuses exactly when that does and leaves the counters it leaves |
| `CommandWindow.Session.OpNopOut` | src/istgt/istgt_iscsi.c:3435-3576 | the same for NOP-Out |
| `CommandWindow.Session.OpTask` | src/istgt/istgt_iscsi.c:3304-3422 | the same for task management, which is never refused |
| `CommandWindow.Session.Answer` | src/istgt/istgt_iscsi.c:3411-3424 | a response is numbered at once with the current StatSN, which then moves on, or left to the sender thread |
| `CommandWindow.Session.UpdatePdu` | src/istgt/istgt_iscsi.c:338-369 | the sender thread numbers a queued response as the handler would have |
| `CommandWindow.Session.TakeStatus` | src/istgt/istgt_iscsi.c:3109-3117 | one status uses one StatSN and opens the window by one command, unless the command was immediate; the number it carries is the one before |
| `DataIn.SegmentsTile` | src/istgt/istgt_iscsi.c:2722-2813 | numbered segments carry the data in order with nothing missing or repeated |
| `DataIn.CompleteRun` | src/istgt/istgt_iscsi.c:2722-2813 | a complete run carries all of the data in full segments, numbered from 0 and each at its place, and only its last PDU has F |
| `DataIn.Responder.SendSegment` | src/istgt/istgt_iscsi.c:2724-2812 | one Data-In with its number, place, octets, F bit and, on the last one, the status |
| `DataIn.Responder.TransferIn` | src/istgt/istgt_iscsi.c:2675-2819 | the Data-In PDUs are a complete run over min(data_len, transfer_len) octets; a status is on the last one exactly when 1 is returned, and then one StatSN is used |
| `DataIn.Responder.TaskResponse` | src/istgt/istgt_iscsi.c:3146-3253 | exactly one PDU, the last, carries status, sense data, StatSN, window and residual; a read that is good or has sense data sends min(data_len, transfer_len) octets, any other command none; the status rides on the last Data-In exactly for a good read that sends something and has no sense data |
| `DataIn.Responder.SendResponse` | src/istgt/istgt_iscsi.c:3186-3253 | the response with status, sense data and residual |
| `Reservation.LeftKeeps` | src/istgt/istgt_lu_disk.c:2365-2501 | a removal keeps exactly the registrations it does not take |
| `Reservation.LeftStable` | src/istgt/istgt_lu_disk.c:2365-2501 | removing twice is removing once |
| `Reservation.FindMeans` | src/istgt/istgt_lu_disk.c:2314-2363 | a lookup fails exactly when nothing matches, and otherwise gives a match |
| `Reservation.FindIs` | src/istgt/istgt_lu_disk.c:2314-2363 | a lookup gives the first registration of the nexus with the key, or with any key if it is 0 |
| `Reservation.RemovalMeans` | src/istgt/istgt_lu_disk.c:2365-2501 | which registrations each of the three removals leaves, by key and port names |
| `Reservation.OutKeepsInvariant` | src/istgt/istgt_lu_disk.c:2710-3454 | every service action keeps: at most 256 registrations, nonzero keys, no two with the same ports, and a reservation with a port, scope 0 and one of the six types |
| `Reservation.EveryRun` | src/istgt/istgt_lu_disk.c:2710-3454 | so does every sequence of PERSISTENT RESERVE OUT, RESERVE(6) and RELEASE(6) from any initiators |
| `Reservation.RefusedUnchanged` | src/istgt/istgt_lu_disk.c:2754-2991 | REGISTER, RESERVE, RELEASE, CLEAR and REGISTER AND IGNORE that do not end GOOD change nothing |
| `Reservation.PreemptChangesIff` | src/istgt/istgt_lu_disk.c:2997-3234 | by the state before it, when a PREEMPT or PREEMPT AND ABORT fails and has still changed something |
| `Reservation.PreemptFailsIff` | src/istgt/istgt_lu_disk.c:2997-3234 | by the state before it, when it fails at all |
| `Reservation.PreemptNotAtomic` | src/istgt/istgt_lu_disk.c:3159-3186 | a PREEMPT refused for its scope that has removed a registration |
| `Reservation.ReleaseEndsIff` | src/istgt/istgt_lu_disk.c:2890-2965 | a RELEASE ends a reservation if and only if it comes from its holder and names the scope and type reserved, and leaves all else; what it answers otherwise |
| `Reservation.ReserveMeans` | src/istgt/istgt_lu_disk.c:2815-2888 | who gets a free unit, as what, and what a RESERVE of a reserved one answers |
| `Reservation.ClearMeans` | src/istgt/istgt_lu_disk.c:2967-2991 | a CLEAR of a registered nexus leaves no reservation and no registration |
| `Reservation.RegisterMeans` | src/istgt/istgt_lu_disk.c:2753-2813 | when the two registrations succeed, what they replace, and which key the reservation has afterwards |
| `Reservation.PreemptMeans` | src/istgt/istgt_lu_disk.c:2993-3240 | whose reservation it is after a preemption, which registrations are gone, and what it answers |
| `Reservation.ReservationStays` | src/istgt/istgt_lu_disk.c:2710-3454 | under every command a reservation stays as it is but for the release of its holder, CLEAR, a preemption, and the key change of a registration that names its key |
| `Reservation.Reserve6Means` | src/istgt/istgt_lu_disk.c:3632-3715 | when RESERVE(6) succeeds, what it leaves, and who gets a conflict |
| `Reservation.Release6Means` | src/istgt/istgt_lu_disk.c:3547-3630 | when RELEASE(6) succeeds and what it leaves |
| `Reservation.Reserve6Succeeds` | src/istgt/istgt_lu_disk.c:3632-3715 | what RESERVE(6) leaves from an unregistered port |
| `Reservation.Release6Succeeds` | src/istgt/istgt_lu_disk.c:3547-3630 | RELEASE(6) undoes it |
| `Reservation.ReserveThenRelease` | src/istgt/istgt_lu_disk.c:3547-3715 | from an unregistered port with room and no reservation, RESERVE(6) succeeds exactly with a nonzero key and RELEASE(6) restores the registrations and leaves no reservation |
| `Reservation.RegisteredAnew` | src/istgt/istgt_lu_disk.c:3242-3435 | removing and registering anew leaves a registration that a lookup of its port and key finds |
| `Reservation.Reserve6ChangesIff` | src/istgt/istgt_lu_disk.c:3632-3715 | by the state before it, when a RESERVE(6) fails and has still changed something |
| `Reservation.Reserve6NotAtomic` | src/istgt/istgt_lu_disk.c:3632-3715 | a refused RESERVE(6) that leaves its port registered |
| `Reservation.Release6Unchanged` | src/istgt/istgt_lu_disk.c:3547-3630 | a RELEASE(6) that does not end GOOD has changed nothing |
| `Reservation.Disk.FindPrKey` | src/istgt/istgt_lu_disk.c:2314-2363 | the first matching registration of the array |
| `Reservation.Disk.MoveDown` | src/istgt/istgt_lu_disk.c:2402-2414 | the inner loop closes a gap and clears the last slot |
| `Reservation.Disk.Remove` | src/istgt/istgt_lu_disk.c:2365-2501 | both removal loops leave the order-preserving filter of the array; free slots own no strings |
| `Reservation.Disk.TakesEntry` | src/istgt/istgt_lu_disk.c:2387-2397 | the tests of the two loops on one entry |
| `Reservation.Disk.DoRegister` | src/istgt/istgt_lu_disk.c:3299-3435 | a registration is appended, a changed key follows into the reservation, or the table is full and nothing changes |
| `Reservation.Disk.DoRegisterOut` | src/istgt/istgt_lu_disk.c:2755-2813 | REGISTER computes its service action on the table |
| `Reservation.Disk.DoRegisterAndIgnoreOut` | src/istgt/istgt_lu_disk.c:3242-3435 | REGISTER AND IGNORE EXISTING KEY |
| `Reservation.Disk.DoReserveOut` | src/istgt/istgt_lu_disk.c:2815-2888 | RESERVE |
| `Reservation.Disk.DoReleaseOut` | src/istgt/istgt_lu_disk.c:2890-2965 | RELEASE |
| `Reservation.Disk.DoClearOut` | src/istgt/istgt_lu_disk.c:2967-2991 | CLEAR |
| `Reservation.Disk.DoPreemptOut` | src/istgt/istgt_lu_disk.c:2993-3240 | PREEMPT and PREEMPT AND ABORT |
| `Reservation.Disk.TakeOver` | src/istgt/istgt_lu_disk.c:3166-3234 | the reservation changes hands after the test of scope and type |
| `Reservation.Disk.PersistentReserveOut` | src/istgt/istgt_lu_disk.c:2710-3454 | the command computes the service action of its code on table, reservation and generation |
| `Reservation.Disk.ReserveUnit` | src/istgt/istgt_lu_disk.c:3632-3715 | RESERVE(6) as registration and reservation with a derived key |
| `Reservation.Disk.ReleaseUnit` | src/istgt/istgt_lu_disk.c:3547-3630 | RELEASE(6) as release and removal of the registration |
| `LinkedQueue.Queue.constructor` | src/istgt/istgt_queue.c:41-49 | an empty queue with null links |
| `LinkedQueue.Queue.Count` | src/istgt/istgt_queue.c:65-82 | the result is the length of the queue exactly as long as the counter is kept, as in every valid queue; Destroy can leave it otherwise |
| `LinkedQueue.Queue.Enqueue` | src/istgt/istgt_queue.c:84-109 | one element at the end; the ring stays whole from either form of the empty queue |
| `LinkedQueue.Queue.EnqueueFirst` | src/istgt/istgt_queue.c:137-162 | one element at the front |
| `LinkedQueue.Queue.LinkOnly` | src/istgt/istgt_queue.c:96-100 | the first element of an empty queue makes a ring with the head |
| `LinkedQueue.Queue.LinkLast` | src/istgt/istgt_queue.c:101-106 | behind the last node, or behind the head of a queue that has been emptied |
| `LinkedQueue.Queue.LinkFirst` | src/istgt/istgt_queue.c:149-160 | in front of the first node |
| `LinkedQueue.Queue.Dequeue` | src/istgt/istgt_queue.c:111-134 | the first element, or nothing exactly when the queue is empty |
| `LinkedQueue.Queue.Destroy` | src/istgt/istgt_queue.c:51-62 | the queue is valid again exactly if it was empty, because the counter stays |
| `CommandQueue.QueueTask` | src/istgt/istgt_lu_disk.c:4678-4727 | a task is refused exactly when more than maxq wait, otherwise it goes to the head or the end by its attribute |
| `CommandQueue.SelectMeans` | src/istgt/istgt_lu_disk.c:4350-4351 | a clear takes exactly the tasks of the port, all of them or those with the CmdSN, and leaves exactly the others |
| `Names.SameNameIff` | src/istgt/istgt_lu_disk.c:4350-4351 | names are equal up to the case of their letters |
| `CommandQueue.SelectPartitions` | src/istgt/istgt_lu_disk.c:4346-4372 | every task is kept or destroyed, once |
| `CommandQueue.Drain` | src/istgt/istgt_lu_disk.c:4346-4372 | the first loop destroys the tasks of the clear and moves the others, both in order |
| `CommandQueue.Refill` | src/istgt/istgt_lu_disk.c:4373-4383 | the second loop moves everything back in order |
| `CommandQueue.Clear` | src/istgt/istgt_lu_disk.c:4322-4424 | exactly the tasks that do not match are left, in their order; the matching ones are destroyed; the second queue ends empty, so the clear succeeds |
| `CommandQueue.Unit.QueueCount` | src/istgt/istgt_lu_disk.c:4752-4798 | a positive count exactly when some storage LUN has tasks, and then the first such LUN in cyclic order |
| `CommandQueue.Unit.NextLun` | src/istgt/istgt_lu.c:2595-2624 | one turn of the worker, whose cursor moves past the LUN it serves |
| `CommandQueue.FirstUnique` | src/istgt/istgt_lu_disk.c:4766-4796 | the LUN selected is determined by the cursor and what waits |
| `CommandQueue.BoundedBypass` | src/istgt/istgt_lu.c:2595-2624 | a LUN that never runs empty is served within maxlun turns, whatever else is queued in between |
| `Md5.FoldConcat` | src/istgt/istgt_md5.c:235-255 | folding the blocks of two parts one after the other is folding the whole |
| `Md5.FoldedStep` | src/istgt/istgt_md5.c:235-255 | octets that do not fill the buffer only join the rest, octets that fill it are folded in |
| `Md5.CarryRightIff` | src/istgt/istgt_md5.c:230-232 | the carry between the two count words is right exactly when the update has fewer than 2^32 bits modulo 2^64 |
| `Md5.LowWord` | src/istgt/istgt_md5.c:230-233 | the low word, and with it the place in the buffer, is right for every length |
| `Md5.PaddingFits` | src/istgt/istgt_md5.c:260-273 | padding and length end on a block boundary within 72 octets |
| `Md5.InitialOctets` | src/istgt/istgt_md5.c:72-84 | the initial words are those of section 3.3 of RFC 1321, octet by octet |
| `Md5.WordOctets` | src/istgt/istgt_md5.c:225-256 | the words of a block are made of its octets, least significant first |
| `Md5.Context.constructor` | src/istgt/istgt_md5.c:72-79 | an empty message and the initial words |
| `Md5.Context.TakeIn` | src/istgt/istgt_md5.c:235-254 | one round of the copy loop |
| `Md5.Context.Absorb` | src/istgt/istgt_md5.c:234-255 | the copy loop takes in all of the data |
| `Md5.Context.AddLength` | src/istgt/istgt_md5.c:227-233 | the two words count the new octets |
| `Md5.Context.Update` | src/istgt/istgt_md5.c:225-256 | the context stands for the message so far with the data appended, for data of any length |
| `Md5.Context.Final` | src/istgt/istgt_md5.c:258-284 | the digest of the message padded by the two count words |
| `Md5.MakeTail` | src/istgt/istgt_md5.c:259-272 | the buffer of 72 octets holds exactly the padding and the length |
| `Md5.ClosedIsDigest` | src/istgt/istgt_md5.c:258-284 | with a right bit count that is the digest of RFC 1321 |
| `Md5.DigestOf` | src/istgt/istgt_iscsi.c:1292-1301 | the digest does not depend on how the message was cut into updates of fewer than 2^29 octets |
| `WriteSame.Chunk` | src/istgt/istgt_lu_disk.c:3950-3961 | a chunk of k copies continues a run of n blocks written one at a time |
| `WriteSame.BlocksOfTheRange` | src/istgt/istgt_lu_disk.c:3931-3942 | afterwards exactly the blocks of the range hold the data and every other block is untouched |
| `WriteSame.Disk.Pwrite` | src/istgt/istgt_lu_disk.c:3954-3958 | a write inside the medium that moves all of its octets or none |
| `WriteSame.Disk.FillWork` | src/istgt/istgt_lu_disk.c:3944-3948 | the work buffer holds as many copies as fit |
| `WriteSame.Disk.WriteChunks` | src/istgt/istgt_lu_disk.c:3950-3961 | the chunked loop leaves the medium as the simple loop would, also when a write fails midway, and succeeds exactly when the store accepts a write per chunk; every write stays inside |
| `WriteSame.Disk.WriteRange` | src/istgt/istgt_lu_disk.c:3920-3971 | a range that lies on the disk is written, or as many blocks as the store accepts writes for |
| `WriteSame.Disk.LbWriteSame` | src/istgt/istgt_lu_disk.c:3855-3971 | the whole command: zero length means to the end; exactly which requests are refused as out of range and exactly when one fails, by block length, transfer, write protection and the number of writes the store accepts; and what the medium is afterwards |
| `Tsih.AllocatedMeans` | src/istgt/istgt_lu.c:526-595 | a handle is given exactly when the tag is not 0, a slot is free and one of the next eleven counter values is usable; it is the first such value, in use nowhere else, and goes into one empty slot |
| `Tsih.FreedMeans` | src/istgt/istgt_lu.c:597-629 | only the slot with the handle and the port is emptied |
| `Tsih.AllocateThenFree` | src/istgt/istgt_lu.c:526-629 | a handle given and freed by the same port leaves the table as it was |
| `Tsih.RoomMeansSlot` | src/istgt/istgt_lu.c:554-592 | where the capacity check passes a free slot is found |
| `Tsih.AllocatedKeeps` | src/istgt/istgt_lu.c:526-595 | allocation keeps live handles nonzero and pairwise different and the slot counter one more than the live slots |
| `Tsih.FreedKeeps` | src/istgt/istgt_lu.c:597-629 | so does freeing |
| `Tsih.EveryRun` | src/istgt/istgt_lu.c:1745-1752 | and so does every run from the initial table, through any wrap-around of the counter |
| `Tsih.Target.constructor` | src/istgt/istgt_lu.c:1745-1752 | the initial table |
| `Tsih.Target.Found` | src/istgt/istgt_lu.c:571-572 | the search among the live slots |
| `Tsih.Target.NextHandle` | src/istgt/istgt_lu.c:559-582 | the retry loop ends after at most eleven attempts, at the first usable value |
| `Tsih.Target.AllocateTsih` | src/istgt/istgt_lu.c:526-595 | allocation in the array computes the allocation on the table |
| `Tsih.Target.FreeTsih` | src/istgt/istgt_lu.c:597-629 | and so does freeing |
| `TextParams.AddKeepsDistinct` | src/istgt/istgt_iscsi_param.c:96-134 | no list ever holds two entries with equal keys |
| `TextParams.LookupAdd` | src/istgt/istgt_iscsi_param.c:96-134 | after an addition the key has the new value and every other key the value it had |
| `TextParams.LastValueWins` | src/istgt/istgt_iscsi_param.c:172-242 | a key that comes several times in a text ends up with its last value |
| `TextParams.OthersUntouched` | src/istgt/istgt_iscsi_param.c:172-242 | a key that does not come keeps what it had |
| `TextParams.SameKeyEquivalence` | src/istgt/istgt_iscsi_param.c:65-66 | the comparison of keys is an equivalence |
| `TextParams.SameKeyIff` | src/istgt/istgt_iscsi_param.c:65-66 | keys are equal when the first characters are and the others are up to case |
| `TextParams.ParamList.ParamFind` | src/istgt/istgt_iscsi_param.c:59-71 | the first node with an equal key, or none |
| `TextParams.ParamList.ParamDel` | src/istgt/istgt_iscsi_param.c:73-94 | the first entry with an equal key is cut out, the others stay in order |
| `TextParams.ParamList.Unlink` | src/istgt/istgt_iscsi_param.c:82-88 | one node is cut out of the chain, at its head or behind another |
| `TextParams.ParamList.CutBehind` | src/istgt/istgt_iscsi_param.c:82-84 | behind another node |
| `TextParams.ParamList.CutFirst` | src/istgt/istgt_iscsi_param.c:85-87 | at the head |
| `TextParams.ParamList.Append` | src/istgt/istgt_iscsi_param.c:123-131 | the new node goes behind the last one |
| `TextParams.ParamList.ParamAdd` | src/istgt/istgt_iscsi_param.c:96-134 | an equal key is replaced and the new entry comes last |
| `TextParams.ReadPair` | src/istgt/istgt_iscsi_param.c:190-236 | one round of the scanner: a pair and where the next begins, or a fault |
| `TextParams.ScanTo` | src/istgt/istgt_iscsi_param.c:192-197 | the first stop character or the end |
| `TextParams.PassNuls` | src/istgt/istgt_iscsi_param.c:233-236 | all NULs behind a value are passed over |
| `TextParams.ParseParams` | src/istgt/istgt_iscsi_param.c:172-242 | the pairs of the text are added one after the other up to the first fault |
| `TextParams.AppendText` | src/istgt/istgt_iscsi.c:1024-1050 | key=value and a NUL are appended, cut off where the space ends, and the result counts what would have been written |
| `TextParams.Print` | src/istgt/istgt_iscsi.c:1046 | at most the space left is written, with a NUL, and the result is the whole length |
| `TextParams.WriteAll` | src/istgt/istgt_iscsi.c:1024-1050 | with enough space repeated appending puts down the text of the pairs |
| `TextParams.ReadComposed` | src/istgt/istgt_iscsi_param.c:172-242 | a written text is read without fault exactly when every pair is short enough, and then pair by pair |
| `TextParams.RoundTripIff` | src/istgt/istgt_iscsi_param.c:172-242 | the list is the one that was written exactly when, besides, no two keys are equal |
| `TextParams.ReadAny` | src/istgt/istgt_iscsi_param.c:187-236 | any text that starts with a pair, any number of NULs behind it or the end of the data: the pair is taken and the NULs are passed over, unless key or value is too long |
| `TextParams.ReadFault` | src/istgt/istgt_iscsi_param.c:198-204 | a text without a '=' before the NUL or the end is a fault |
| `Tokenizer.ScanWord` | src/istgt/istgt_misc.c:159-198 | the word is written over what was read for it; the write pointer never passes the read pointer and nothing unread is touched |
| `Tokenizer.ScanOne` | src/istgt/istgt_misc.c:161-196 | one character is kept, dropped or ends the word |
| `Tokenizer.SkipTail` | src/istgt/istgt_misc.c:200-208 | the separators before the next word are passed over |
| `Tokenizer.Strsepq` | src/istgt/istgt_misc.c:151-211 | one call takes the first word off the line, in place, and says where the rest begins |
| `Tokenizer.Split` | src/istgt/istgt_conf.c:347-365 | repeated calls until the pointer is null deliver the words of the line |
| `Tokenizer.EscapeString` | src/istgt/istgt_misc.c:240-271 | the first loop finds exactly the size that the second one fills with the escaped string |
| `Tokenizer.EscapedSize` | src/istgt/istgt_misc.c:248-257 | the size of the escaped string |
| `Tokenizer.ScanEscaped` | src/istgt/istgt_misc.c:160-190 | inside double quotes an escaped word without a newline is read back whole |
| `Tokenizer.ScanBroken` | src/istgt/istgt_misc.c:161 | a word with a newline comes back too short |
| `Tokenizer.FirstWord` | src/istgt/istgt_misc.c:151-211 | a quoted word at the front of a line is cut off whole, and what is behind it is left |
| `Tokenizer.RoundTripIff` | src/istgt/istgt_misc.c:151-271 | escaping, quoting, joining and cutting gives back the list exactly when no word has a newline in it |
| `Tokenizer.ScanPiece` | src/istgt/istgt_misc.c:161-196 | a character as it is, one behind a backslash, or a run in either kind of quotes is read as what it means |
| `Tokenizer.WordOfPieces` | src/istgt/istgt_misc.c:151-211 | a word written in any such pieces is taken off the line as what they mean, and what is left starts at the next word |
| `Tokenizer.SkipAll` | src/istgt/istgt_misc.c:200-208 | any number of separators is passed over |

## Left out

- DataOut.Connection.TransferOut: requires that a resumed task's octets fit the caller's buffer, which the source copies without a test, and models lengths without the 32-bit limit of `len`.
- DataOut.Connection.AddTransferTask: requires that no entry has the same task tag, as the initiator's tags must be distinct; the source does not look.
- DataOut.Connection.AskIfDue: a failure to send the R2T, which ends the transfer with an error in the source, is not modelled; nor is it in the loop.
- DataOut.Connection.ReceiveLoop: the same failure to send an R2T.
- DataOut.Connection.ResumeTransfer: requires that the entry's octets fit the caller's buffer.
- DataOut.Connection.OpData: the test for the full feature phase and the failure of sending a Reject are not modelled.
- Writes.WriteByRules: the initiator's task tag is not 0xffffffff, which RFC 3720 reserves.
- PduTransport.ReadPdu: the limit on a data segment is a parameter; the source takes 65536 before there is a session and MaxRecvDataSegmentLength afterwards, and a wait for a socket that never answers is an end of the schedule.
- CommandWindow.Session.OpScsi: the wait for missing commands on sessions with several connections is not modelled; one connection per session is.
- CommandWindow.NumberedRunIff: holds for queue depths below 2^31 - 2; the source allows 255.
- CommandWindow.SlowRefusedIff: holds for queue depths below 2^30 and fewer than 2^31 unacknowledged statuses; the source allows a depth of 255.
- CommandWindow.RunConserves: Text, Login and Logout requests take no part; Text reads its I bit from another place and may set StatSN back.
- DataIn.Responder.TransferIn: a failed send ends the connection in the source and is not modelled.
- Reservation.EveryRun: registration with SPEC_I_PT and TransportIDs is not modelled, nor that a holder stays registered, which the source does not keep.
- Reservation.Disk.DoPreemptOut: whether the abort of the preempted port's tasks went through is a parameter. The abort (src/istgt/istgt_lu_disk.c:4426-4436) is the clearing of CommandQueue.Clear for all commands of the port, which ends well unless destroying or enqueueing a task fails: without such a failure PREEMPT AND ABORT ends as PREEMPT does.
- CommandQueue.Clear: the task that waits for its transfer, which a clear aborts under its own mutex, is not part of this model, nor is a failure to destroy a task or to enqueue.
- CommandQueue.Unit.QueueCount: a scan sees all queues at one moment, and the number stored in a disk is its slot.
- Md5.DigestOf: holds for every block function; the four rounds of the block function itself are not written out.
- WriteSame.Disk.LbWriteSame: 64-bit wrap-around of offsets is not modelled, since a medium has fewer than 2^64 octets; the transfer of the data block is a parameter.
- Tsih.Target.AllocateTsih: the null target and null port tests and the global counter used for discovery sessions are not modelled.
- TextParams.AppendText: keys and values are never null here.
- Sockets, polling, threads, mutexes, logging, time, memory exhaustion and file I/O: steps under a mutex are atomic, and the transport is a schedule of how many octets each call moves.
- Configuration, portal and initiator groups, access lists and SendTargets.
- INQUIRY, MODE SENSE, REPORT LUNS, sense data, LUN encoding and the other fixed layouts.
- Login negotiation and CHAP, apart from the digest they use.
- The digest over an I/O vector (src/istgt/istgt_crc32c.c:159-197), which has no caller.
- Disk reads, ordinary writes, COMPARE AND WRITE and the checks of a command against the reservation.
