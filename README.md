# DTLS handshake flight engine

A Dafny model of the flight engine of GnuTLS's DTLS handshake,
`lib/gnutls_dtls.c`. The engine keeps the outgoing flight, the handshake
messages buffered for one turn of the handshake, and does the following:

- **Sending.** Each message is cut into MTU-sized fragments, each behind the
  12-byte DTLS handshake header of RFC 6347, section 4.2.2, fragmented as
  section 4.2.3 describes. A change-cipher-spec message goes as one record.
- **One round.** Every message is sent in buffer order, then the transport
  is flushed and the engine waits for the peer. The wait is explicit (one
  byte) after a Finished message that ends this side's handshake and
  implicit otherwise.
- **Timeouts and retransmission.** Each wait charges the retransmission
  timeout to an unsigned 32-bit accumulator. The whole flight is sent again
  while the round asks for it and the accumulator stays below the total
  timeout (RFC 6347, section 4.2.4).
- **Ending.** Except after a failed flush, the engine releases the epoch
  usage counts the flight held (`drop_usage_count`) and empties the buffer.

The model has five modules:

- `DtlsTypes`: constants, the buffered message, the record handed to the
  record layer, the session settings and the environment.
- `Fragmentation`: the header encoding and the fragment sequence of one
  message, with the layout, count, offset and reassembly properties.
- `EpochUsage`: the walk of `drop_usage_count` as a function, with its
  success condition and its failure points.
- `Flight`: what one message, one round and a whole run of rounds do, as
  functions of the environment's answers. It holds the retransmission and
  timeout-budget properties.
- `DtlsSession`: the class `Session`. Its fields are the session state the
  engine reads and changes. Its methods are `transmit_message`,
  `drop_usage_count`, `_gnutls_dtls_transmit` and
  `gnutls_dtls_set_timeouts`, with loops over a scratch `array` and the
  send buffer. Each method is proved against the functions of `Flight` and
  `EpochUsage`.

The collaborators are an `Environment` of total functions indexed by call
number:

- `send(n)` answers the n-th record handed to `_gnutls_send_int`, and the
  record is appended to the `wire` log;
- `alloc(n)` says whether the n-th `gnutls_malloc` succeeds;
- `flush(n)` answers `_gnutls_io_write_flush`;
- `peek(n)` answers `_gnutls_io_check_recv`, with the outer content type
  of the first byte it read.

The epoch table is the session's map `epochs` from epoch to usage counter.
An epoch missing from the map stands for a failed `_gnutls_epoch_get`, and
its answer is taken to be GNUTLS_E_INVALID_REQUEST (see "## Left out").

Behaviour of the code that the model keeps, and that a quick reading can
miss:

- A failed flush returns at once and skips the cleanup
  (lib/gnutls_dtls.c:166-168). Only the exits after a successful flush
  release the epoch counts and empty the buffer (lib/gnutls_dtls.c:192-209).
- The answers of `transmit_message` are ignored during a round
  (lib/gnutls_dtls.c:162), so a failed send does not end the run.
- The answer of `drop_usage_count` is ignored at cleanup
  (lib/gnutls_dtls.c:208). Its walk stops at the first failing message, so
  after a failure some counters are not decremented.
- With retrans_timeout = T and total_timeout = 3T - 1, a run whose every
  wait asks for a retransmission makes three rounds only when T >= 2. With
  T = 1 it makes two.
- The documentation of `gnutls_dtls_set_timeouts` says the handshake is
  aborted with GNUTLS_E_TIMEDOUT after the total timeout
  (lib/gnutls_dtls.c:225-226). The accumulator is an `unsigned int` that
  wraps (lib/gnutls_dtls.c:152, 184, 189), so a large retransmission timeout
  can keep the run below its budget for ever.
  `Flight.WrappedBudgetNeverExpires` exhibits this.

## Model

| member | source | states |
|---|---|---|
| Fragmentation.Uint16 | lib/gnutls_dtls.c:75 | the two big-endian bytes of the low 16 bits of a value, as `_gnutls_write_uint16` writes them (read back by Uint16RoundTrip) |
| Fragmentation.Uint24 | lib/gnutls_dtls.c:72-90 | the three big-endian bytes of a value below 2^24, as `_gnutls_write_uint24` writes them (read back by Uint24RoundTrip) |
| Fragmentation.FragmentLength | lib/gnutls_dtls.c:81-84 | the fragment length at an offset: at most the MTU, never past the body's end, and equal to the MTU unless it reaches the body's end, that is min(mtu, size - offset) |
| Fragmentation.MessageHeader | lib/gnutls_dtls.c:68-75 | the six header bytes common to every fragment of a message: the type as a byte, the total length as uint24 and the sequence as uint16 |
| Fragmentation.FragmentAt | lib/gnutls_dtls.c:86-92 | the record built for the fragment at an offset: the message header, the offset and the fragment length as uint24, then the fragment's body bytes (laid out by FragmentLayout) |
| Fragmentation.FragmentsFrom | lib/gnutls_dtls.c:78-92 | the records the loop builds from an offset on, one per offset not past the body's end, in steps of the MTU (counted by FragmentsFromCount, indexed by FragmentIndex) |
| Fragmentation.Uint16RoundTrip | lib/gnutls_dtls.c:75 | the sequence field is two big-endian bytes that read back as the sequence's low 16 bits |
| Fragmentation.Uint24RoundTrip | lib/gnutls_dtls.c:72-90 | a 24-bit field (total length, fragment offset, fragment length) is three big-endian bytes that read back as the value |
| Fragmentation.FragmentLayout | lib/gnutls_dtls.c:69-92 | a fragment record is 12 header bytes plus exactly frag_len body bytes. frag_len is min(mtu, size - offset), so never above the MTU. The parsed header gives the type byte, total length, sequence, offset and frag_len. The body is the message's bytes from offset |
| Fragmentation.FragmentBody | lib/gnutls_dtls.c:92 | the bytes after a fragment's header are the message body from offset, frag_len of them |
| Fragmentation.FragmentsFromCount | lib/gnutls_dtls.c:78 | from offset on, the `offset <= data_size` loop emits (data_size - offset) / mtu + 1 fragments |
| Fragmentation.FragmentCount | lib/gnutls_dtls.c:78-84 | a message of data_size bytes is sent as exactly data_size / mtu + 1 fragments |
| Fragmentation.FragmentIndex | lib/gnutls_dtls.c:78-87 | fragment i is the one built at offset i * mtu, so the offsets are 0, mtu, 2·mtu, … |
| Fragmentation.ReassembleFrom | lib/gnutls_dtls.c:78-92 | the bodies of the fragments from offset on, concatenated, are the message body from offset |
| Fragmentation.FragmentsReassemble | lib/gnutls_dtls.c:78-92 | concatenating the fragment bodies in emission order gives back the message body exactly |
| Fragmentation.TrailingEmptyFragment | lib/gnutls_dtls.c:78-84 | when data_size is a multiple of the MTU, the last fragment is empty, at offset data_size; an empty message is one empty fragment |
| EpochUsage.Drop | lib/gnutls_dtls.c:115-135 | the walk of `drop_usage_count`: each message in order decrements its epoch's counter, stopping with GNUTLS_E_INVALID_REQUEST at an unknown epoch or GNUTLS_E_INTERNAL_ERROR at a negative counter. The result is one of 0 and those two codes, and the set of epochs is unchanged |
| EpochUsage.DropSucceeds | lib/gnutls_dtls.c:115-135 | the walk returns 0 exactly when every referenced epoch is known and has at least as many uses as messages on it. It then lowers each counter by exactly the number of messages on that epoch |
| EpochUsage.DropFailsAt | lib/gnutls_dtls.c:123-131 | at the first message the walk cannot absorb, an unknown epoch returns the lookup error with that message undecremented. A counter driven negative returns GNUTLS_E_INTERNAL_ERROR with the decrement applied. Earlier messages stay decremented and later ones untouched |
| Flight.FragmentLoop | lib/gnutls_dtls.c:78-108 | the fragment loop from an offset: one handshake record per offset not past the body's end, each answered by the record layer, stopping right after the first negative answer (described by FragmentLoopSends) |
| Flight.SendMessage | lib/gnutls_dtls.c:41-113 | `transmit_message` on the environment: the single change-cipher-spec record, or the allocation (GNUTLS_E_MEMORY_ERROR when it fails) and then the fragment loop (described by SendMessageShape and SendMessageReliable) |
| Flight.SendFlight | lib/gnutls_dtls.c:159-164 | every buffered message through SendMessage in buffer order, answers ignored (described by SendFlightEveryMessage, SendFlightReliable and SendFlightCounters) |
| Flight.ExplicitAck | lib/gnutls_dtls.c:171-173 | the explicit wait is chosen when the last buffered message is Finished and the side is a server in a full handshake or a client in a resumed one |
| Flight.Elapse | lib/gnutls_dtls.c:184-189 | the accumulator after one more wait: the sum when it stays below 2^32, and the sum minus 2^32 when it wraps |
| Flight.Round | lib/gnutls_dtls.c:155-196 | one pass of the do-while: send the flight, flush (ending on a failure), wait, charge the timeout, then end with GNUTLS_E_TIMEDOUT at the budget, retransmit on a GNUTLS_E_TIMEDOUT verdict, or end with the verdict |
| Flight.Run | lib/gnutls_dtls.c:155-212 | rounds until one does not retransmit, within a bound on the rounds: the result (a failed flush's answer, or the clamped verdict after cleanup), the environment and the number of rounds (described by RunResult and the lemmas below) |
| Flight.SentCount | lib/gnutls_dtls.c:104-107 | of n > 0 fragments, between 1 and n are handed to the record layer |
| Flight.SentCountStops | lib/gnutls_dtls.c:104-107 | every fragment handed over but the last was accepted; when the loop stops early, the last one was refused |
| Flight.SendEachSends | lib/gnutls_dtls.c:104-107 | the stop-at-first-failure loop hands over the first SentCount fragments in order and returns the answer to the last |
| Flight.FragmentLoopSends | lib/gnutls_dtls.c:78-108 | the fragment loop hands over the first SentCount fragments of the message in order and returns the last answer |
| Flight.SendMessageShape | lib/gnutls_dtls.c:50-112 | change-cipher-spec: one record of outer type change-cipher-spec, no fragment header, the header bytes, one send, no allocation. Failed allocation: nothing sent, GNUTLS_E_MEMORY_ERROR. Otherwise a prefix of the fragment records, and the first negative send stops the loop and is returned as is |
| Flight.SendMessageReliable | lib/gnutls_dtls.c:58-112 | when the allocation and every send succeed, all the message's records go out in order and the result is not negative |
| Flight.SendFlightReliable | lib/gnutls_dtls.c:159-164 | when nothing fails, a round's sending puts every buffered message's records on the wire, in buffer order |
| Flight.SendMessagePart | lib/gnutls_dtls.c:50-112 | one message adds a prefix of its records to the wire, and at least one record when the allocation succeeds |
| Flight.SendFlightEveryMessage | lib/gnutls_dtls.c:159-164 | whatever the sends answer, the wire gains one part per buffered message, in buffer order, each a prefix of that message's records, so a failed send does not stop the next message. With no failed allocation, every part is non-empty |
| Flight.SendFlightCounters | lib/gnutls_dtls.c:159-164 | sending the flight only extends the wire and neither flushes nor waits |
| Flight.AckVerdict | lib/gnutls_dtls.c:171-190 | a round asks for retransmission (GNUTLS_E_TIMEDOUT) exactly when: explicit mode, the peer sent a handshake record; implicit mode, the wait timed out. An explicit wait that times out is success. Any other answer stands |
| Flight.RunResult | lib/gnutls_dtls.c:155-212 | a run that ends returns 0 or a negative value. One that skips the cleanup ended on a failed flush and returns that flush's answer. Each round flushes once, each round past its flush waits once, and the wire only grows |
| Flight.RunFlushFails | lib/gnutls_dtls.c:166-168 | a round whose flush fails ends the run with the flush's answer and no cleanup |
| Flight.RunEndsOnVerdict | lib/gnutls_dtls.c:192-205 | after a successful flush, with the charged accumulator below total_timeout and a verdict other than GNUTLS_E_TIMEDOUT, the run ends in this round, after one flush and one wait, with the cleanup and min(verdict, 0) |
| Flight.RunRetransmits | lib/gnutls_dtls.c:184-196 | after a successful flush, with the charged accumulator below total_timeout and a GNUTLS_E_TIMEDOUT verdict, the run goes on with another round of the same flight from the charged accumulator, after exactly one more flush and one more wait |
| Flight.RunReplaysFlight | lib/gnutls_dtls.c:155-196 | when nothing fails, every round sends the whole flight again in buffer order: the wire gains the flight once per round |
| Flight.RoundsToExhaustIsLeast | lib/gnutls_dtls.c:184-196 | RoundsToExhaust(budget, step) is the least k >= 1 with k * step >= budget |
| Flight.AlwaysRetransmitGivesUp | lib/gnutls_dtls.c:184-196 | with retrans_timeout > 0 (no wrap) and waits that all ask for a retransmission (implicit mode: every wait times out; explicit mode: the peer keeps sending handshake records), the run ends with GNUTLS_E_TIMEDOUT after cleanup, after exactly the least k >= 1 rounds with k * retrans_timeout >= total_timeout |
| Flight.ThreeAttempts | lib/gnutls_dtls.c:184-196 | retrans_timeout T >= 2, total_timeout 3T - 1 and waits that all ask for a retransmission give exactly three rounds and GNUTLS_E_TIMEDOUT |
| Flight.BudgetOverridesAck | lib/gnutls_dtls.c:192-195 | after a successful flush, once the charged accumulator reaches total_timeout, the run ends in this round, after one flush and one wait, with GNUTLS_E_TIMEDOUT and cleanup, whatever the wait answered |
| Flight.WrappedBudgetNeverExpires | lib/gnutls_dtls.c:152-196 | with retrans_timeout 2^31 and total_timeout 2^31 + 1, the 32-bit accumulator alternates between 2^31 and 0, and waits that all ask for a retransmission make the flight go out without end |
| Flight.ZeroRetransNeverExpires | lib/gnutls_dtls.c:184-196 | with retrans_timeout 0 and total_timeout > 0, the accumulator stays 0, and waits that all ask for a retransmission make the flight go out without end |
| DtlsSession.WriteUint24 | lib/gnutls_dtls.c:72 | writes the three big-endian bytes of a 24-bit value at the given index and nothing else |
| DtlsSession.WriteUint16 | lib/gnutls_dtls.c:75 | writes the two big-endian bytes of the low 16 bits at the given index and nothing else |
| DtlsSession.WriteMessageHeader | lib/gnutls_dtls.c:68-75 | the first six scratch bytes become the type byte, the total length and the sequence; every byte from 6 on is left as it was |
| DtlsSession.WriteFragment | lib/gnutls_dtls.c:86-92 | after the offset, the length and the body copy, the first 12 + frag_len scratch bytes are the fragment record; the message header and every byte past 12 + frag_len are left as they were |
| DtlsSession.Session.SetTimeouts | lib/gnutls_dtls.c:232-237 | stores both timeouts and changes nothing else |
| DtlsSession.Session.SendInt | lib/gnutls_dtls.c:104-105 | one record goes on the wire and the record layer's answer is returned |
| DtlsSession.Session.Allocate | lib/gnutls_dtls.c:58-60 | the scratch buffer has mtu + 12 bytes, or is null when the allocator fails |
| DtlsSession.Session.WriteFlush | lib/gnutls_dtls.c:166 | one flush, whose answer is returned |
| DtlsSession.Session.CheckRecv | lib/gnutls_dtls.c:176-188 | one wait, whose answer is returned |
| DtlsSession.Session.TransmitMessage | lib/gnutls_dtls.c:41-113 | the wire, the allocation count and the result are those of SendMessage: the change-cipher-spec bypass, the allocation failure, and the fragment loop over the scratch array that stops after the first negative send |
| DtlsSession.Session.DropUsageCount | lib/gnutls_dtls.c:115-135 | the result and the new epoch counters are those of the walk Drop (characterised by DropSucceeds and DropFailsAt) |
| DtlsSession.Session.TransmitFlight | lib/gnutls_dtls.c:159-164 | every buffered message goes through TransmitMessage in buffer order, results ignored. last_type becomes the last message's type, or is left as it was for an empty buffer |
| DtlsSession.Session.AwaitAck | lib/gnutls_dtls.c:170-190 | one wait, and the round's verdict is AckVerdict of the wait mode chosen from last_type and the entity and resumption flags |
| DtlsSession.Session.FlightRound | lib/gnutls_dtls.c:155-196 | one pass of the do-while body, equal to Round from the old state: the new wire and counters are SendFlight's with one flush, plus one wait unless the flush failed, and a retransmission carries the accumulator charged by Elapse. A failed flush or an exit is the end of Run from this round. A retransmission leaves the same run to the next round |
| DtlsSession.Session.TransmitRounds | lib/gnutls_dtls.c:155-196 | the do-while loop ends in the state, result and exit path of Run |
| DtlsSession.Session.Transmit | lib/gnutls_dtls.c:143-213 | the result and wire are those of Run. The settings are unchanged. After an exit the epoch counters are Drop's and the send buffer is empty. After a failed flush both are untouched |
| DtlsSession.Session.Cleanup | lib/gnutls_dtls.c:207-209 | the epoch counters become those of Drop over the buffer, whose result is ignored, and the buffer is emptied |

## Left out

- The record layer, transport flush, receive-peek and allocator are not
  modelled. Their answers are the `Environment` oracles.
- The epoch lookup `_gnutls_epoch_get` is not modelled. It is the session's
  `epochs` map: a present epoch yields its counter, and an absent one is a
  failure whose answer is always GNUTLS_E_INVALID_REQUEST. The source
  returns whatever negative code the lookup gives (lib/gnutls_dtls.c:126-128),
  and lib/gnutls_constate.c, which defines it, is not part of this model.
- The `_mbuffer_*` accessors become plain field reads of `BufferedMessage`.
- Real time is not modelled. A wait is one oracle answer, and the timeout is
  only the 32-bit accumulator. The non-blocking GNUTLS_E_AGAIN of
  retransmission timeout 0 would come from the receive-peek oracle.
- Debug logging (`_gnutls_dtls_log`) and `gnutls_assert_val`, which return
  their value unchanged, are left out.
- `gnutls_free` of the scratch buffer and the freeing inside `_mbuffer_clear`
  are left out: memory release has no observable effect in the model.
- The 8-bit `c` that `_gnutls_io_check_recv` fills is the oracle's `first`.
  The case where the call returns without writing it is not modelled apart.
- The values of the GNUTLS_E_* codes, the content types and the handshake
  types are GnuTLS's own. The headers that define them are not part of this
  model.
- lib/tpm.c, doc/examples/ex-verify.c and lib/pkcs11_int.h are not part of
  this model. They are calls into foreign libraries, example output, and
  declarations without bodies.
- DtlsSession.Session.Transmit: covers only runs that end within `fuel`
  rounds, the bound that makes the loop's model terminate. Runs that never
  end are shown to exist by `Flight.WrappedBudgetNeverExpires` and
  `Flight.ZeroRetransNeverExpires`.
- DtlsSession.Session.TransmitRounds: covers only runs that end within
  `fuel` rounds, as for Transmit.
- DtlsSession.Session.TransmitMessage: requires `MtuFits`, that is
  mtu > 0 and mtu + 2^24 - 1 < 2^32. Together with bodies under 2^24 bytes
  this keeps `mtu + 12` and `offset + mtu` from wrapping in 32 bits; larger
  MTUs are not covered.
- DtlsSession.Session.TransmitFlight: requires `Sendable`, the MTU bound
  above and bodies of less than 2^24 bytes for every buffered message.
