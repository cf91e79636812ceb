/** Specification of `transmit_message` and of the retransmission loop of
    `_gnutls_dtls_transmit` as functions of the environment's answers: what
    one message puts on the wire, what one round of the flight does, and
    how the whole run of rounds ends (RFC 6347, section 4.2.4). */
module Flight {
  import opened DtlsTypes
  import opened Fragmentation

  /** The single record of a change-cipher-spec message: outer type
      change-cipher-spec, no inner type, the buffer's header bytes. */
  function CcsRecord(m: BufferedMessage): Record
  {
    Record(CONTENT_CHANGE_CIPHER_SPEC, -1, m.epoch, m.userHeader)
  }

  /** The handshake records carrying the given fragments of `m`. */
  function HandshakeRecords(m: BufferedMessage, frags: seq<seq<byte>>): seq<Record>
  {
    seq(|frags|, i requires 0 <= i < |frags| => Record(CONTENT_HANDSHAKE, m.htype, m.epoch, frags[i]))
  }

  /** Of `n` fragments offered to the record layer from call `start` on, how
      many are handed over: the loop stops right after the first negative
      answer. */
  function SentCount(n: nat, send: nat -> int, start: nat): (k: nat)
    ensures n == 0 ==> k == 0
    ensures 0 < n ==> 1 <= k <= n
    decreases n
  {
    if n == 0 then 0
    else if send(start) < 0 then 1
    else 1 + SentCount(n - 1, send, start + 1)
  }

  /** Every fragment handed over but the last was accepted; the last one
      was refused unless it was the n-th. */
  lemma {:induction false} SentCountStops(n: nat, send: nat -> int, start: nat)
    ensures var k := SentCount(n, send, start);
      && (forall j :: start <= j < start + k - 1 ==> send(j) >= 0)
      && (0 < k < n ==> send(start + k - 1) < 0)
    decreases n
  {
    if n > 0 && send(start) >= 0 {
      SentCountStops(n - 1, send, start + 1);
    }
  }

  /** The wire after a run of sends, and the last answer. */
  datatype Emitted = Emitted(wire: seq<Record>, ret: int)

  /** The fragment loop of `transmit_message` from `offset` on, where `ret`
      is the answer to the previous fragment (0 before the first): one
      handshake record per offset that does not pass the body's end, in
      steps of the MTU, stopping right after the first negative answer. */
  function FragmentLoop(m: BufferedMessage, mtu: nat, send: nat -> int, wire: seq<Record>, offset: nat, ret: int): Emitted
    requires 0 < mtu && |m.userData| <= MAX_UINT24
    decreases |m.userData| - offset
  {
    if offset > |m.userData| then Emitted(wire, ret)
    else
      var r := send(|wire|);
      var wire' := wire + [Record(CONTENT_HANDSHAKE, m.htype, m.epoch, FragmentAt(m, mtu, offset))];
      if r < 0 then Emitted(wire', r)
      else FragmentLoop(m, mtu, send, wire', offset + mtu, r)
  }

  /** The same stop-at-first-failure loop over a list of fragments. */
  function SendEach(m: BufferedMessage, send: nat -> int, wire: seq<Record>, frags: seq<seq<byte>>, ret: int): Emitted
    decreases |frags|
  {
    if frags == [] then Emitted(wire, ret)
    else
      var r := send(|wire|);
      var wire' := wire + [Record(CONTENT_HANDSHAKE, m.htype, m.epoch, frags[0])];
      if r < 0 then Emitted(wire', r)
      else SendEach(m, send, wire', frags[1..], r)
  }

  lemma {:induction false} FragmentLoopIsSendEach(m: BufferedMessage, mtu: nat, send: nat -> int, wire: seq<Record>, offset: nat, ret: int)
    requires 0 < mtu && |m.userData| <= MAX_UINT24
    ensures FragmentLoop(m, mtu, send, wire, offset, ret) == SendEach(m, send, wire, FragmentsFrom(m, mtu, offset), ret)
    decreases |m.userData| - offset
  {
    if offset <= |m.userData| {
      var frags := FragmentsFrom(m, mtu, offset);
      assert frags[0] == FragmentAt(m, mtu, offset) && frags[1..] == FragmentsFrom(m, mtu, offset + mtu);
      var wire' := wire + [Record(CONTENT_HANDSHAKE, m.htype, m.epoch, FragmentAt(m, mtu, offset))];
      FragmentLoopIsSendEach(m, mtu, send, wire', offset + mtu, send(|wire|));
    }
  }

  lemma HandshakeRecordsCons(m: BufferedMessage, frags: seq<seq<byte>>, n: nat)
    requires 0 < n <= |frags|
    ensures HandshakeRecords(m, frags[..n])
            == [Record(CONTENT_HANDSHAKE, m.htype, m.epoch, frags[0])] + HandshakeRecords(m, frags[1..][..n - 1])
  {
    assert frags[..n] == [frags[0]] + frags[1..][..n - 1];
  }

  /** The loop hands over the first SentCount fragments, in order, and
      returns the answer to the last one it sent. */
  lemma {:induction false} SendEachSends(m: BufferedMessage, send: nat -> int, wire: seq<Record>, frags: seq<seq<byte>>, ret: int)
    ensures var k := SentCount(|frags|, send, |wire|);
      SendEach(m, send, wire, frags, ret)
        == Emitted(wire + HandshakeRecords(m, frags[..k]), if k == 0 then ret else send(|wire| + k - 1))
    decreases |frags|
  {
    if frags != [] {
      var k := SentCount(|frags|, send, |wire|);
      var rec := Record(CONTENT_HANDSHAKE, m.htype, m.epoch, frags[0]);
      HandshakeRecordsCons(m, frags, k);
      if send(|wire|) >= 0 {
        SendEachSends(m, send, wire + [rec], frags[1..], send(|wire|));
      }
    }
  }

  /** The fragment loop of `transmit_message` hands over the first
      SentCount fragments of the message, in order, and returns the answer
      to the last one it sent. */
  lemma FragmentLoopSends(m: BufferedMessage, mtu: nat, send: nat -> int, wire: seq<Record>, offset: nat, ret: int)
    requires 0 < mtu && |m.userData| <= MAX_UINT24
    ensures var frags := FragmentsFrom(m, mtu, offset);
      var k := SentCount(|frags|, send, |wire|);
      FragmentLoop(m, mtu, send, wire, offset, ret)
        == Emitted(wire + HandshakeRecords(m, frags[..k]), if k == 0 then ret else send(|wire| + k - 1))
  {
    FragmentLoopIsSendEach(m, mtu, send, wire, offset, ret);
    SendEachSends(m, send, wire, FragmentsFrom(m, mtu, offset), ret);
  }

  datatype Sent = Sent(io: Io, ret: int)

  /** `transmit_message`: a change-cipher-spec message is one send of its
      header bytes; any other message allocates the fragment buffer (failing
      with GNUTLS_E_MEMORY_ERROR) and runs the fragment loop. */
  function SendMessage(m: BufferedMessage, mtu: nat, env: Environment, io: Io): Sent
    requires MtuFits(mtu) && |m.userData| <= MAX_UINT24
  {
    if m.htype == HANDSHAKE_CHANGE_CIPHER_SPEC then
      Sent(io.(wire := io.wire + [CcsRecord(m)]), env.send(|io.wire|))
    else if !env.alloc(io.allocs) then
      Sent(io.(allocs := io.allocs + 1), GNUTLS_E_MEMORY_ERROR)
    else
      var sent := FragmentLoop(m, mtu, env.send, io.wire, 0, 0);
      Sent(io.(wire := sent.wire, allocs := io.allocs + 1), sent.ret)
  }

  /** Every record that one message puts on the wire when nothing fails. */
  function MessageRecords(m: BufferedMessage, mtu: nat): seq<Record>
    requires MtuFits(mtu) && |m.userData| <= MAX_UINT24
  {
    if m.htype == HANDSHAKE_CHANGE_CIPHER_SPEC then [CcsRecord(m)]
    else HandshakeRecords(m, Fragments(m, mtu))
  }

  /** The first half of a round: every buffered message, in buffer order,
      each send's return value ignored. */
  function SendFlight(buf: seq<BufferedMessage>, mtu: nat, env: Environment, io: Io): Io
    requires Sendable(buf, mtu)
    decreases |buf|
  {
    if buf == [] then io
    else SendFlight(buf[1..], mtu, env, SendMessage(buf[0], mtu, env, io).io)
  }

  function FlightRecords(buf: seq<BufferedMessage>, mtu: nat): seq<Record>
    requires Sendable(buf, mtu)
    decreases |buf|
  {
    if buf == [] then [] else MessageRecords(buf[0], mtu) + FlightRecords(buf[1..], mtu)
  }

  /** The records of consecutive messages, one after the other. */
  function Concat(parts: seq<seq<Record>>): seq<Record>
  {
    if parts == [] then [] else parts[0] + Concat(parts[1..])
  }

  function Repeat(s: seq<Record>, n: nat): seq<Record>
  {
    if n == 0 then [] else s + Repeat(s, n - 1)
  }

  /** `last_type` after a round: the type of the last buffered message, or
      its initial 0 when the buffer is empty. */
  function LastType(buf: seq<BufferedMessage>): nat
  {
    if buf == [] then 0 else buf[|buf| - 1].htype
  }

  /** The explicit wait is used after a Finished message when this side
      expects no further handshake record: a server finishing a full
      handshake or a client finishing a resumed one. */
  predicate ExplicitAck(cfg: Config, buf: seq<BufferedMessage>)
  {
    LastType(buf) == HANDSHAKE_FINISHED
    && ((cfg.entity == Server && !cfg.resumed) || (cfg.entity == Client && cfg.resumed))
  }

  /** The round's result after the wait. A GNUTLS_E_TIMEDOUT result asks
      for a retransmission: in explicit mode exactly when the peer sent a
      handshake record, in implicit mode exactly when the wait timed out.
      An explicit wait that times out is success; otherwise the wait's
      answer stands. */
  function AckVerdict(explicit: bool, p: Peek): (r: int)
    ensures r == GNUTLS_E_TIMEDOUT <==>
      if explicit then p.ret >= 0 && p.first == CONTENT_HANDSHAKE
      else p.ret == GNUTLS_E_TIMEDOUT
    ensures explicit && p.ret == GNUTLS_E_TIMEDOUT ==> r == 0
    ensures r != GNUTLS_E_TIMEDOUT && !(explicit && p.ret == GNUTLS_E_TIMEDOUT) ==> r == p.ret
  {
    if !explicit then p.ret
    else if p.ret == GNUTLS_E_TIMEDOUT then 0
    else if p.ret >= 0 && p.first == CONTENT_HANDSHAKE then GNUTLS_E_TIMEDOUT
    else p.ret
  }

  /** The unsigned 32-bit accumulator after one more wait. */
  function Elapse(elapsed: uint32, retransTimeout: uint32): (r: uint32)
    ensures elapsed + retransTimeout < UINT32_MODULUS ==> r == elapsed + retransTimeout
    ensures elapsed + retransTimeout >= UINT32_MODULUS ==> r == elapsed + retransTimeout - UINT32_MODULUS
  {
    (elapsed + retransTimeout) % UINT32_MODULUS
  }

  datatype RoundEnd = FlushFailed(code: int) | Retransmit(elapsed: uint32) | Exit(code: int)
  datatype Step = Step(io: Io, end: RoundEnd)

  /** One pass of the do-while loop: send the flight, flush, wait, charge
      the retransmission timeout to the accumulator. */
  function Round(cfg: Config, buf: seq<BufferedMessage>, env: Environment, io: Io, elapsed: uint32): Step
    requires Sendable(buf, cfg.mtu)
  {
    var sent := SendFlight(buf, cfg.mtu, env, io);
    var flushed := sent.(flushes := sent.flushes + 1);
    var f := env.flush(sent.flushes);
    if f < 0 then Step(flushed, FlushFailed(f))
    else
      var waited := flushed.(peeks := flushed.peeks + 1);
      var verdict := AckVerdict(ExplicitAck(cfg, buf), env.peek(flushed.peeks));
      var elapsed' := Elapse(elapsed, cfg.retransTimeout);
      if elapsed' >= cfg.totalTimeout then Step(waited, Exit(GNUTLS_E_TIMEDOUT))
      else if verdict == GNUTLS_E_TIMEDOUT then Step(waited, Retransmit(elapsed'))
      else Step(waited, Exit(verdict))
  }

  /** How a run ends: the environment afterwards, the return value, whether
      the cleanup (epoch release, buffer clear) runs, and the number of
      rounds. */
  datatype Outcome = Outcome(io: Io, ret: int, cleanup: bool, rounds: nat)

  /** The retransmission loop from accumulator `elapsed`, after `done`
      earlier rounds, allowed at most `fuel` more; None when it has not
      ended within them. The outcome counts all rounds, `done` included. */
  function Run(cfg: Config, buf: seq<BufferedMessage>, env: Environment, io: Io, elapsed: uint32, fuel: nat, done: nat): Option<Outcome>
    requires Sendable(buf, cfg.mtu)
    decreases fuel
  {
    if fuel == 0 then None
    else
      var step := Round(cfg, buf, env, io, elapsed);
      match step.end
      case FlushFailed(code) => Some(Outcome(step.io, code, false, done + 1))
      case Exit(code) => Some(Outcome(step.io, if code < 0 then code else 0, true, done + 1))
      case Retransmit(e) => Run(cfg, buf, env, step.io, e, fuel - 1, done + 1)
  }

  // ---------------------------------------------------------------------
  // One message

  /** A change-cipher-spec message is one record with no fragment header,
      through one send with outer type change-cipher-spec; any other
      message puts a prefix of its fragment records on the wire, stopping
      after the first negative answer, which is then returned as is. */
  lemma SendMessageShape(m: BufferedMessage, mtu: nat, env: Environment, io: Io)
    requires MtuFits(mtu) && |m.userData| <= MAX_UINT24
    ensures var s := SendMessage(m, mtu, env, io);
      && io.wire <= s.io.wire
      && s.io.wire[|io.wire|..] <= MessageRecords(m, mtu)
      && (m.htype == HANDSHAKE_CHANGE_CIPHER_SPEC ==>
            s.io.wire == io.wire + [Record(CONTENT_CHANGE_CIPHER_SPEC, -1, m.epoch, m.userHeader)]
            && s.ret == env.send(|io.wire|) && s.io.allocs == io.allocs)
      && (m.htype != HANDSHAKE_CHANGE_CIPHER_SPEC && !env.alloc(io.allocs) ==>
            s.io.wire == io.wire && s.ret == GNUTLS_E_MEMORY_ERROR)
      && (m.htype != HANDSHAKE_CHANGE_CIPHER_SPEC && env.alloc(io.allocs) ==>
            var n := |s.io.wire| - |io.wire|;
            && 1 <= n
            && (forall j :: |io.wire| <= j < |s.io.wire| - 1 ==> env.send(j) >= 0)
            && s.ret == env.send(|s.io.wire| - 1)
            && (n < |Fragments(m, mtu)| ==> s.ret < 0))
      && s.io.flushes == io.flushes && s.io.peeks == io.peeks
  {
    var s := SendMessage(m, mtu, env, io);
    if m.htype != HANDSHAKE_CHANGE_CIPHER_SPEC && env.alloc(io.allocs) {
      var frags := Fragments(m, mtu);
      FragmentCount(m, mtu);
      FragmentLoopSends(m, mtu, env.send, io.wire, 0, 0);
      SentCountStops(|frags|, env.send, |io.wire|);
      var k := SentCount(|frags|, env.send, |io.wire|);
      var sent := HandshakeRecords(m, frags[..k]);
      assert s.io.wire == io.wire + sent;
      assert s.io.wire[|io.wire|..] == sent;
      assert sent == HandshakeRecords(m, frags)[..k];
    } else if m.htype == HANDSHAKE_CHANGE_CIPHER_SPEC {
      assert s.io.wire[|io.wire|..] == [CcsRecord(m)];
    }
  }

  /** When every send and the allocation succeed, one message puts all its
      records on the wire and returns a non-negative value. */
  lemma SendMessageReliable(m: BufferedMessage, mtu: nat, env: Environment, io: Io)
    requires MtuFits(mtu) && |m.userData| <= MAX_UINT24
    requires forall j :: env.send(j) >= 0
    requires forall j :: env.alloc(j)
    ensures SendMessage(m, mtu, env, io).io.wire == io.wire + MessageRecords(m, mtu)
    ensures SendMessage(m, mtu, env, io).ret >= 0
    ensures SendMessage(m, mtu, env, io).io.flushes == io.flushes
    ensures SendMessage(m, mtu, env, io).io.peeks == io.peeks
  {
    if m.htype != HANDSHAKE_CHANGE_CIPHER_SPEC {
      var frags := Fragments(m, mtu);
      FragmentCount(m, mtu);
      FragmentLoopSends(m, mtu, env.send, io.wire, 0, 0);
      SentCountStops(|frags|, env.send, |io.wire|);
      var k := SentCount(|frags|, env.send, |io.wire|);
      assert k == |frags|;
      assert frags[..k] == frags;
    }
  }

  // ---------------------------------------------------------------------
  // One round and the run

  /** Every suffix of a sendable buffer is sendable. */
  lemma SendableSuffix(buf: seq<BufferedMessage>, mtu: nat, i: nat)
    requires i <= |buf| && Sendable(buf, mtu)
    ensures Sendable(buf[i..], mtu)
  {
    forall k | 0 <= k < |buf[i..]| ensures |buf[i..][k].userData| <= MAX_UINT24 {
      assert buf[i..][k] == buf[i + k];
    }
  }

  /** When nothing fails, a round puts the whole flight on the wire: every
      message's records, in buffer order. */
  lemma {:induction false} SendFlightReliable(buf: seq<BufferedMessage>, mtu: nat, env: Environment, io: Io)
    requires Sendable(buf, mtu)
    requires forall j :: env.send(j) >= 0
    requires forall j :: env.alloc(j)
    ensures SendFlight(buf, mtu, env, io).wire == io.wire + FlightRecords(buf, mtu)
    ensures SendFlight(buf, mtu, env, io).flushes == io.flushes
    ensures SendFlight(buf, mtu, env, io).peeks == io.peeks
    decreases |buf|
  {
    if buf != [] {
      SendableSuffix(buf, mtu, 1);
      var records := MessageRecords(buf[0], mtu);
      var io' := SendMessage(buf[0], mtu, env, io).io;
      assert io'.wire == io.wire + records && io'.flushes == io.flushes && io'.peeks == io.peeks by {
        SendMessageReliable(buf[0], mtu, env, io);
      }
      SendFlightReliable(buf[1..], mtu, env, io');
      assert io.wire + records + FlightRecords(buf[1..], mtu) == io.wire + (records + FlightRecords(buf[1..], mtu));
    }
  }

  /** What one message adds to the wire: a prefix of its records, not
      empty when the allocation succeeds. */
  lemma SendMessagePart(m: BufferedMessage, mtu: nat, env: Environment, io: Io) returns (part: seq<Record>)
    requires MtuFits(mtu) && |m.userData| <= MAX_UINT24
    ensures SendMessage(m, mtu, env, io).io.wire == io.wire + part
    ensures part <= MessageRecords(m, mtu)
    ensures env.alloc(io.allocs) ==> part != []
  {
    var s := SendMessage(m, mtu, env, io);
    SendMessageShape(m, mtu, env, io);
    part := s.io.wire[|io.wire|..];
    assert s.io.wire == io.wire + part;
  }

  /** Whatever the sends answer, a round hands every buffered message to
      `transmit_message` in buffer order: the wire gains one part per
      message, each a prefix of that message's records, and a failed send
      in one message does not keep the next one from being sent. When no
      allocation fails, every message puts at least one record on the wire. */
  lemma {:induction false} SendFlightEveryMessage(buf: seq<BufferedMessage>, mtu: nat, env: Environment, io: Io)
    returns (parts: seq<seq<Record>>)
    requires Sendable(buf, mtu)
    ensures |parts| == |buf|
    ensures SendFlight(buf, mtu, env, io).wire == io.wire + Concat(parts)
    ensures forall i :: 0 <= i < |parts| ==> parts[i] <= MessageRecords(buf[i], mtu)
    ensures (forall j :: env.alloc(j)) ==> forall i :: 0 <= i < |parts| ==> parts[i] != []
    decreases |buf|
  {
    if buf == [] {
      parts := [];
    } else {
      SendableSuffix(buf, mtu, 1);
      var s := SendMessage(buf[0], mtu, env, io);
      var part := SendMessagePart(buf[0], mtu, env, io);
      var rest := SendFlightEveryMessage(buf[1..], mtu, env, s.io);
      parts := [part] + rest;
      assert parts[1..] == rest;
      assert io.wire + Concat(parts) == s.io.wire + Concat(rest);
      forall i | 1 <= i < |parts| ensures parts[i] <= MessageRecords(buf[i], mtu) {
        assert parts[i] == rest[i - 1] && buf[i] == buf[1..][i - 1];
      }
    }
  }

  lemma {:induction false} SendFlightCounters(buf: seq<BufferedMessage>, mtu: nat, env: Environment, io: Io)
    requires Sendable(buf, mtu)
    ensures SendFlight(buf, mtu, env, io).flushes == io.flushes
    ensures SendFlight(buf, mtu, env, io).peeks == io.peeks
    ensures io.wire <= SendFlight(buf, mtu, env, io).wire
    decreases |buf|
  {
    if buf != [] {
      var io' := SendMessage(buf[0], mtu, env, io).io;
      SendMessageShape(buf[0], mtu, env, io);
      SendableSuffix(buf, mtu, 1);
      SendFlightCounters(buf[1..], mtu, env, io');
    }
  }

  /** Every run that ends returns 0 or a negative value; a run that skips
      the cleanup ended on a failed flush, with that flush's negative value;
      every round flushes once and every round that gets past its flush
      waits once. */
  lemma {:induction false} RunResult(cfg: Config, buf: seq<BufferedMessage>, env: Environment, io: Io, elapsed: uint32, fuel: nat, done: nat)
    requires Sendable(buf, cfg.mtu)
    requires Run(cfg, buf, env, io, elapsed, fuel, done).Some?
    ensures var out := Run(cfg, buf, env, io, elapsed, fuel, done).value;
      && done + 1 <= out.rounds <= done + fuel
      && out.io.flushes == io.flushes + (out.rounds - done)
      && out.ret <= 0
      && (!out.cleanup ==> out.ret < 0 && out.ret == env.flush(out.io.flushes - 1))
      && out.io.peeks == io.peeks + (out.rounds - done) - (if out.cleanup then 0 else 1)
      && io.wire <= out.io.wire
    decreases fuel
  {
    var step := Round(cfg, buf, env, io, elapsed);
    SendFlightCounters(buf, cfg.mtu, env, io);
    if step.end.Retransmit? {
      RunResult(cfg, buf, env, step.io, step.end.elapsed, fuel - 1, done + 1);
    }
  }

  /** A round whose flush fails ends the run: the flush's answer is
      returned and the cleanup is skipped. */
  lemma RunFlushFails(cfg: Config, buf: seq<BufferedMessage>, env: Environment, io: Io, elapsed: uint32, fuel: nat, done: nat)
    requires Sendable(buf, cfg.mtu) && 0 < fuel
    requires env.flush(SendFlight(buf, cfg.mtu, env, io).flushes) < 0
    ensures var sent := SendFlight(buf, cfg.mtu, env, io);
      Run(cfg, buf, env, io, elapsed, fuel, done)
        == Some(Outcome(sent.(flushes := sent.flushes + 1), env.flush(sent.flushes), false, done + 1))
  {
  }

  /** A round whose flush succeeds, whose charged accumulator stays below
      total_timeout and whose wait asks for no retransmission ends the run
      after this one round, after the cleanup, with the verdict if it is
      negative and 0 otherwise. */
  lemma RunEndsOnVerdict(cfg: Config, buf: seq<BufferedMessage>, env: Environment, io: Io, elapsed: uint32, fuel: nat, done: nat)
    requires Sendable(buf, cfg.mtu) && 0 < fuel
    requires env.flush(SendFlight(buf, cfg.mtu, env, io).flushes) >= 0
    requires Elapse(elapsed, cfg.retransTimeout) < cfg.totalTimeout
    requires AckVerdict(ExplicitAck(cfg, buf), env.peek(SendFlight(buf, cfg.mtu, env, io).peeks)) != GNUTLS_E_TIMEDOUT
    ensures var sent := SendFlight(buf, cfg.mtu, env, io);
      var verdict := AckVerdict(ExplicitAck(cfg, buf), env.peek(sent.peeks));
      Run(cfg, buf, env, io, elapsed, fuel, done)
        == Some(Outcome(sent.(flushes := sent.flushes + 1, peeks := sent.peeks + 1),
                        if verdict < 0 then verdict else 0, true, done + 1))
  {
  }

  /** A round whose flush succeeds, whose charged accumulator stays below
      total_timeout and whose wait asks for a retransmission is followed by
      another round of the same flight, from the charged accumulator, after
      exactly one more flush and one more wait. */
  lemma RunRetransmits(cfg: Config, buf: seq<BufferedMessage>, env: Environment, io: Io, elapsed: uint32, fuel: nat, done: nat)
    requires Sendable(buf, cfg.mtu) && 0 < fuel
    requires env.flush(SendFlight(buf, cfg.mtu, env, io).flushes) >= 0
    requires Elapse(elapsed, cfg.retransTimeout) < cfg.totalTimeout
    requires AckVerdict(ExplicitAck(cfg, buf), env.peek(SendFlight(buf, cfg.mtu, env, io).peeks)) == GNUTLS_E_TIMEDOUT
    ensures var sent := SendFlight(buf, cfg.mtu, env, io);
      Run(cfg, buf, env, io, elapsed, fuel, done)
        == Run(cfg, buf, env, sent.(flushes := sent.flushes + 1, peeks := sent.peeks + 1),
               Elapse(elapsed, cfg.retransTimeout), fuel - 1, done + 1)
  {
  }

  lemma RepeatSucc(flight: seq<Record>, before: seq<Record>, after: seq<Record>, n: nat)
    requires after == before + flight
    ensures after + Repeat(flight, n) == before + Repeat(flight, n + 1)
  {
    assert Repeat(flight, n + 1) == flight + Repeat(flight, n);
  }

  /** When nothing fails, every round retransmits the whole flight in
      buffer order: the wire gains the flight's records once per round. */
  lemma {:induction false} RunReplaysFlight(cfg: Config, buf: seq<BufferedMessage>, env: Environment, io: Io, elapsed: uint32, fuel: nat, done: nat)
    requires Sendable(buf, cfg.mtu)
    requires forall j :: env.send(j) >= 0
    requires forall j :: env.alloc(j)
    requires Run(cfg, buf, env, io, elapsed, fuel, done).Some?
    ensures var out := Run(cfg, buf, env, io, elapsed, fuel, done).value;
      done <= out.rounds && out.io.wire == io.wire + Repeat(FlightRecords(buf, cfg.mtu), out.rounds - done)
    decreases fuel
  {
    var step := Round(cfg, buf, env, io, elapsed);
    var flight := FlightRecords(buf, cfg.mtu);
    SendFlightReliable(buf, cfg.mtu, env, io);
    assert step.io.wire == io.wire + flight;
    if step.end.Retransmit? {
      RunReplaysFlight(cfg, buf, env, step.io, step.end.elapsed, fuel - 1, done + 1);
      var rest := Run(cfg, buf, env, step.io, step.end.elapsed, fuel - 1, done + 1).value;
      RepeatSucc(flight, io.wire, step.io.wire, rest.rounds - done - 1);
    } else {
      assert Repeat(flight, 1) == flight + [];
    }
  }

  // ---------------------------------------------------------------------
  // The timeout budget

  /** Rounds until `budget` is exhausted at `step` per round when every
      round asks for a retransmission. */
  function RoundsToExhaust(budget: nat, step: nat): nat
    requires 0 < step
    decreases budget
  {
    if budget <= step then 1 else 1 + RoundsToExhaust(budget - step, step)
  }

  /** RoundsToExhaust(budget, step) is the least k >= 1 with k * step >= budget. */
  lemma {:induction false} RoundsToExhaustIsLeast(budget: nat, step: nat)
    requires 0 < step
    ensures var k := RoundsToExhaust(budget, step);
      && 1 <= k
      && k * step >= budget
      && forall j :: 1 <= j < k ==> j * step < budget
    decreases budget
  {
    var k := RoundsToExhaust(budget, step);
    if budget > step {
      RoundsToExhaustIsLeast(budget - step, step);
      MulSucc(k - 1, step);
      forall j | 1 <= j < k ensures j * step < budget {
        if j > 1 {
          MulSucc(j - 1, step);
        }
      }
    }
  }

  lemma {:induction false} AlwaysRetransmitFrom(cfg: Config, buf: seq<BufferedMessage>, env: Environment, io: Io, elapsed: uint32, fuel: nat, done: nat)
    requires Sendable(buf, cfg.mtu)
    requires 0 < cfg.retransTimeout
    requires elapsed <= cfg.totalTimeout
    requires elapsed + RoundsToExhaust(cfg.totalTimeout - elapsed, cfg.retransTimeout) * cfg.retransTimeout
             < UINT32_MODULUS
    requires forall j :: env.flush(j) >= 0
    requires forall j :: AckVerdict(ExplicitAck(cfg, buf), env.peek(j)) == GNUTLS_E_TIMEDOUT
    requires fuel >= RoundsToExhaust(cfg.totalTimeout - elapsed, cfg.retransTimeout)
    ensures var out := Run(cfg, buf, env, io, elapsed, fuel, done);
      && out.Some? && out.value.ret == GNUTLS_E_TIMEDOUT && out.value.cleanup
      && out.value.rounds == done + RoundsToExhaust(cfg.totalTimeout - elapsed, cfg.retransTimeout)
    decreases fuel
  {
    var step := Round(cfg, buf, env, io, elapsed);
    var k := RoundsToExhaust(cfg.totalTimeout - elapsed, cfg.retransTimeout);
    RoundsToExhaustIsLeast(cfg.totalTimeout - elapsed, cfg.retransTimeout);
    MulLe(1, k, cfg.retransTimeout);
    var elapsed' := elapsed + cfg.retransTimeout;
    assert Elapse(elapsed, cfg.retransTimeout) == elapsed';
    if elapsed' < cfg.totalTimeout {
      assert step.end == Retransmit(elapsed');
      MulSucc(k - 1, cfg.retransTimeout);
      AlwaysRetransmitFrom(cfg, buf, env, step.io, elapsed', fuel - 1, done + 1);
    }
  }

  /** Timeout budget: with a positive retransmission timeout that cannot
      wrap the accumulator, and waits that all ask for a retransmission (in
      implicit mode every wait times out; in explicit mode the peer keeps
      sending handshake records), the run gives up
      with GNUTLS_E_TIMEDOUT (after the cleanup) after exactly the least
      k >= 1 rounds with k * retrans_timeout >= total_timeout. */
  lemma AlwaysRetransmitGivesUp(cfg: Config, buf: seq<BufferedMessage>, env: Environment, io: Io, fuel: nat)
    requires Sendable(buf, cfg.mtu)
    requires 0 < cfg.retransTimeout
    requires cfg.totalTimeout + cfg.retransTimeout <= UINT32_MODULUS
    requires forall j :: env.flush(j) >= 0
    requires forall j :: AckVerdict(ExplicitAck(cfg, buf), env.peek(j)) == GNUTLS_E_TIMEDOUT
    requires fuel >= RoundsToExhaust(cfg.totalTimeout, cfg.retransTimeout)
    ensures var out := Run(cfg, buf, env, io, 0, fuel, 0);
      && out.Some? && out.value.ret == GNUTLS_E_TIMEDOUT && out.value.cleanup
      && 1 <= out.value.rounds
      && out.value.rounds * cfg.retransTimeout >= cfg.totalTimeout
      && forall j :: 1 <= j < out.value.rounds ==> j * cfg.retransTimeout < cfg.totalTimeout
  {
    var k := RoundsToExhaust(cfg.totalTimeout, cfg.retransTimeout);
    RoundsToExhaustIsLeast(cfg.totalTimeout, cfg.retransTimeout);
    MulSucc(k - 1, cfg.retransTimeout);
    AlwaysRetransmitFrom(cfg, buf, env, io, 0, fuel, 0);
  }

  /** With retrans_timeout = T >= 2 and total_timeout = 3T - 1, waits that
      all ask for a retransmission give exactly three transmissions of the
      flight. */
  lemma ThreeAttempts(cfg: Config, buf: seq<BufferedMessage>, env: Environment, io: Io)
    requires Sendable(buf, cfg.mtu)
    requires 2 <= cfg.retransTimeout && cfg.totalTimeout == 3 * cfg.retransTimeout - 1
    requires forall j :: env.flush(j) >= 0
    requires forall j :: AckVerdict(ExplicitAck(cfg, buf), env.peek(j)) == GNUTLS_E_TIMEDOUT
    ensures var out := Run(cfg, buf, env, io, 0, 3, 0);
      out.Some? && out.value.ret == GNUTLS_E_TIMEDOUT && out.value.rounds == 3
  {
    var t := cfg.retransTimeout;
    assert RoundsToExhaust(t - 1, t) == 1;
    assert RoundsToExhaust(2 * t - 1, t) == 2;
    assert RoundsToExhaust(3 * t - 1, t) == 3;
    AlwaysRetransmitFrom(cfg, buf, env, io, 0, 3, 0);
  }

  /** Once the accumulator reaches total_timeout, the round ends the run
      with GNUTLS_E_TIMEDOUT and the cleanup, whatever the wait answered. */
  lemma BudgetOverridesAck(cfg: Config, buf: seq<BufferedMessage>, env: Environment, io: Io, elapsed: uint32, fuel: nat, done: nat)
    requires Sendable(buf, cfg.mtu)
    requires 1 <= fuel
    requires env.flush(SendFlight(buf, cfg.mtu, env, io).flushes) >= 0
    requires Elapse(elapsed, cfg.retransTimeout) >= cfg.totalTimeout
    ensures var sent := SendFlight(buf, cfg.mtu, env, io);
      Run(cfg, buf, env, io, elapsed, fuel, done)
        == Some(Outcome(sent.(flushes := sent.flushes + 1, peeks := sent.peeks + 1), GNUTLS_E_TIMEDOUT, true, done + 1))
  {
  }

  /** The accumulator is an unsigned 32-bit integer: with
      retrans_timeout = 2^31 and total_timeout = 2^31 + 1 it alternates
      between 2^31 and 0, never reaches total_timeout, and waits that all
      ask for a retransmission make the flight go out without end. */
  lemma {:induction false} WrappedBudgetNeverExpires(cfg: Config, buf: seq<BufferedMessage>, env: Environment, io: Io, elapsed: uint32, fuel: nat, done: nat)
    requires Sendable(buf, cfg.mtu)
    requires cfg.retransTimeout == 0x8000_0000 && cfg.totalTimeout == 0x8000_0001
    requires elapsed == 0 || elapsed == 0x8000_0000
    requires forall j :: env.flush(j) >= 0
    requires forall j :: AckVerdict(ExplicitAck(cfg, buf), env.peek(j)) == GNUTLS_E_TIMEDOUT
    ensures Run(cfg, buf, env, io, elapsed, fuel, done).None?
    decreases fuel
  {
    if fuel > 0 {
      var step := Round(cfg, buf, env, io, elapsed);
      var elapsed' := if elapsed == 0 then 0x8000_0000 else 0;
      assert Elapse(elapsed, cfg.retransTimeout) == elapsed';
      assert step.end == Retransmit(elapsed');
      WrappedBudgetNeverExpires(cfg, buf, env, step.io, elapsed', fuel - 1, done + 1);
    }
  }

  /** With retrans_timeout = 0 (non-blocking mode) and total_timeout > 0
      the accumulator never grows: waits that all ask for a retransmission
      make the flight go out without end. */
  lemma {:induction false} ZeroRetransNeverExpires(cfg: Config, buf: seq<BufferedMessage>, env: Environment, io: Io, fuel: nat, done: nat)
    requires Sendable(buf, cfg.mtu)
    requires cfg.retransTimeout == 0 && 0 < cfg.totalTimeout
    requires forall j :: env.flush(j) >= 0
    requires forall j :: AckVerdict(ExplicitAck(cfg, buf), env.peek(j)) == GNUTLS_E_TIMEDOUT
    ensures Run(cfg, buf, env, io, 0, fuel, done).None?
    decreases fuel
  {
    if fuel > 0 {
      var step := Round(cfg, buf, env, io, 0);
      assert step.end == Retransmit(0);
      ZeroRetransNeverExpires(cfg, buf, env, step.io, fuel - 1, done + 1);
    }
  }
}
