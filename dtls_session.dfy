/** The session state that the flight engine of lib/gnutls_dtls.c reads and
    updates, and its four operations: `transmit_message`,
    `drop_usage_count`, `_gnutls_dtls_transmit` and
    `gnutls_dtls_set_timeouts`. Each is proved against the specification
    functions of modules Flight and EpochUsage. The record layer, the
    allocator, the transport flush and the receive-peek are the session's
    environment: their answers come from `env`, and every record handed to
    the record layer is appended to `wire`. */
module DtlsSession {
  import opened DtlsTypes
  import opened Fragmentation
  import opened EpochUsage
  import opened Flight

  /** `_gnutls_write_uint24` into a buffer. */
  method WriteUint24(n: nat, a: array<byte>, at: nat)
    requires n <= MAX_UINT24 && at + 3 <= a.Length
    modifies a
    ensures a[at .. at + 3] == Uint24(n)
    ensures forall j :: 0 <= j < a.Length && !(at <= j < at + 3) ==> a[j] == old(a[j])
  {
    a[at] := n / 0x1_0000;
    a[at + 1] := (n / 0x100) % 0x100;
    a[at + 2] := n % 0x100;
  }

  /** `_gnutls_write_uint16` into a buffer. */
  method WriteUint16(n: nat, a: array<byte>, at: nat)
    requires at + 2 <= a.Length
    modifies a
    ensures a[at .. at + 2] == Uint16(n)
    ensures forall j :: 0 <= j < a.Length && !(at <= j < at + 2) ==> a[j] == old(a[j])
  {
    a[at] := (n / 0x100) % 0x100;
    a[at + 1] := n % 0x100;
  }

  /** The header bytes written once per message (type, total length,
      sequence) into the scratch buffer. */
  method WriteMessageHeader(m: BufferedMessage, a: array<byte>)
    requires |m.userData| <= MAX_UINT24 && 6 <= a.Length
    modifies a
    ensures a[..6] == MessageHeader(m.htype, |m.userData|, m.sequence)
    ensures forall j :: 6 <= j < a.Length ==> a[j] == old(a[j])
  {
    a[0] := m.htype % 0x100;
    WriteUint24(|m.userData|, a, 1);
    WriteUint16(m.sequence, a, 4);
    assert a[..6] == a[..1] + a[1..4] + a[4..6];
  }

  /** Completes the record of the fragment at `offset` in the scratch
      buffer, whose first six bytes hold the message header: writes the
      fragment offset and length, then copies the fragment's bytes. */
  method WriteFragment(m: BufferedMessage, mtu: nat, offset: nat, fragLen: nat, a: array<byte>)
    requires |m.userData| <= MAX_UINT24 && offset <= |m.userData|
    requires fragLen == FragmentLength(|m.userData|, mtu, offset)
    requires a.Length == mtu + DTLS_HANDSHAKE_HEADER_SIZE
    requires a[..6] == MessageHeader(m.htype, |m.userData|, m.sequence)
    modifies a
    ensures a[..6] == old(a[..6])
    ensures a[..DTLS_HANDSHAKE_HEADER_SIZE + fragLen] == FragmentAt(m, mtu, offset)
    ensures forall j :: DTLS_HANDSHAKE_HEADER_SIZE + fragLen <= j < a.Length ==> a[j] == old(a[j])
  {
    WriteUint24(offset, a, 6);
    WriteUint24(fragLen, a, 9);
    assert a[..6] == old(a[..6]);
    forall j | 0 <= j < fragLen {
      a[DTLS_HANDSHAKE_HEADER_SIZE + j] := m.userData[offset + j];
    }
    assert a[..6] == old(a[..6]);
    assert a[6..9] == Uint24(offset) && a[9..12] == Uint24(fragLen);
    assert a[12 .. 12 + fragLen] == m.userData[offset .. offset + fragLen];
    assert a[..12 + fragLen] == a[..6] + a[6..9] + a[9..12] + a[12 .. 12 + fragLen];
  }

  class Session {
    // security_parameters.entity and internals.resumed
    var entity: Entity
    var resumed: bool
    // internals.dtls
    var hskMtu: nat
    var retransTimeout: uint32
    var totalTimeout: uint32
    // internals.handshake_send_buffer, in transmission order
    var sendBuffer: seq<BufferedMessage>
    // usage_cnt of the record parameters of every epoch the lookup finds
    var epochs: map<nat, int>

    // The environment and what has been done to it
    const env: Environment
    var wire: seq<Record>
    var allocCalls: nat
    var flushCalls: nat
    var peekCalls: nat

    function Settings(): Config
      reads this`entity, this`resumed, this`hskMtu, this`retransTimeout, this`totalTimeout
    {
      Config(entity, resumed, hskMtu, retransTimeout, totalTimeout)
    }

    function Progress(): Io
      reads this`wire, this`allocCalls, this`flushCalls, this`peekCalls
    {
      Io(wire, allocCalls, flushCalls, peekCalls)
    }

    constructor (entity: Entity, resumed: bool, hskMtu: nat, retransTimeout: uint32, totalTimeout: uint32,
                 sendBuffer: seq<BufferedMessage>, epochs: map<nat, int>, env: Environment)
      ensures Settings() == Config(entity, resumed, hskMtu, retransTimeout, totalTimeout)
      ensures this.sendBuffer == sendBuffer && this.epochs == epochs && this.env == env
      ensures Progress() == Io([], 0, 0, 0)
    {
      this.entity := entity;
      this.resumed := resumed;
      this.hskMtu := hskMtu;
      this.retransTimeout := retransTimeout;
      this.totalTimeout := totalTimeout;
      this.sendBuffer := sendBuffer;
      this.epochs := epochs;
      this.env := env;
      wire := [];
      allocCalls := 0;
      flushCalls := 0;
      peekCalls := 0;
    }

    /** `gnutls_dtls_set_timeouts`: stores both timeouts, changes nothing
        else. */
    method SetTimeouts(retransTimeout: uint32, totalTimeout: uint32)
      modifies this`retransTimeout, this`totalTimeout
      ensures this.retransTimeout == retransTimeout && this.totalTimeout == totalTimeout
    {
      this.retransTimeout := retransTimeout;
      this.totalTimeout := totalTimeout;
    }

    /** The record-layer send `_gnutls_send_int`: the record goes on the
        wire and the environment answers. */
    method SendInt(contentType: nat, htype: int, epoch: nat, payload: seq<byte>) returns (ret: int)
      modifies this`wire
      ensures wire == old(wire) + [Record(contentType, htype, epoch, payload)]
      ensures ret == env.send(|old(wire)|)
    {
      ret := env.send(|wire|);
      wire := wire + [Record(contentType, htype, epoch, payload)];
    }

    /** `gnutls_malloc` of the fragment buffer; null when it fails. */
    method Allocate(size: nat) returns (buf: array?<byte>)
      modifies this`allocCalls
      ensures allocCalls == old(allocCalls) + 1
      ensures (buf != null) == env.alloc(old(allocCalls))
      ensures buf != null ==> fresh(buf) && buf.Length == size
    {
      if env.alloc(allocCalls) {
        buf := new byte[size];
      } else {
        buf := null;
      }
      allocCalls := allocCalls + 1;
    }

    /** `_gnutls_io_write_flush`. */
    method WriteFlush() returns (ret: int)
      modifies this`flushCalls
      ensures flushCalls == old(flushCalls) + 1
      ensures ret == env.flush(old(flushCalls))
    {
      ret := env.flush(flushCalls);
      flushCalls := flushCalls + 1;
    }

    /** `_gnutls_io_check_recv`: the bounded wait for incoming data. */
    method CheckRecv() returns (p: Peek)
      modifies this`peekCalls
      ensures peekCalls == old(peekCalls) + 1
      ensures p == env.peek(old(peekCalls))
    {
      p := env.peek(peekCalls);
      peekCalls := peekCalls + 1;
    }

    /** `transmit_message`: sends a change-cipher-spec message as one
        record; fragments any other message through the freshly allocated
        scratch buffer `mtuData` of MTU plus header size, one record per
        offset from 0 in steps of the MTU while the offset does not pass
        the body's end, stopping after the first negative answer. */
    method TransmitMessage(m: BufferedMessage) returns (ret: int)
      requires MtuFits(hskMtu) && |m.userData| <= MAX_UINT24
      modifies this`wire, this`allocCalls
      ensures Progress() == SendMessage(m, hskMtu, env, old(Progress())).io
      ensures ret == SendMessage(m, hskMtu, env, old(Progress())).ret
    {
      var mtu := hskMtu;
      if m.htype == HANDSHAKE_CHANGE_CIPHER_SPEC {
        ret := SendInt(CONTENT_CHANGE_CIPHER_SPEC, -1, m.epoch, m.userHeader);
        return;
      }
      var mtuData := Allocate(mtu + DTLS_HANDSHAKE_HEADER_SIZE);
      if mtuData == null {
        return GNUTLS_E_MEMORY_ERROR;
      }
      var dataSize := |m.userData|;
      WriteMessageHeader(m, mtuData);

      ghost var sent := FragmentLoop(m, mtu, env.send, wire, 0, 0);
      var offset := 0;
      ret := 0;
      while offset <= dataSize
        invariant FragmentLoop(m, mtu, env.send, wire, offset, ret) == sent
        invariant mtuData[..6] == MessageHeader(m.htype, dataSize, m.sequence)
        invariant allocCalls == old(allocCalls) + 1
        decreases dataSize - offset
      {
        var fragLen := if offset + mtu > dataSize then dataSize - offset else mtu;
        WriteFragment(m, mtu, offset, fragLen, mtuData);
        ret := SendInt(CONTENT_HANDSHAKE, m.htype, m.epoch, mtuData[..DTLS_HANDSHAKE_HEADER_SIZE + fragLen]);
        if ret < 0 {
          break;
        }
        offset := offset + mtu;
      }
    }

    /** `drop_usage_count`: walks the send buffer and decrements the usage
        counter of each message's epoch, stopping at a failed lookup or a
        negative counter. */
    method DropUsageCount() returns (ret: int)
      modifies this`epochs
      ensures ret == Drop(sendBuffer, old(epochs)).ret
      ensures epochs == Drop(sendBuffer, old(epochs)).usage
    {
      var i := 0;
      while i < |sendBuffer|
        invariant 0 <= i <= |sendBuffer|
        invariant Drop(sendBuffer, old(epochs)) == Drop(sendBuffer[i..], epochs)
      {
        assert sendBuffer[i..][0] == sendBuffer[i] && sendBuffer[i..][1..] == sendBuffer[i + 1..];
        var e := sendBuffer[i].epoch;
        // _gnutls_epoch_get fails for an epoch it does not hold
        if e !in epochs {
          return GNUTLS_E_INVALID_REQUEST;
        }
        epochs := epochs[e := epochs[e] - 1];
        if epochs[e] < 0 {
          return GNUTLS_E_INTERNAL_ERROR;
        }
        i := i + 1;
      }
      return 0;
    }

    /** The message loop of `_gnutls_dtls_transmit`: every buffered
        message, in buffer order, through `transmit_message`, whose answers
        are ignored; `lastType` becomes the type of the last message, and
        stays as it was when the buffer is empty. */
    method TransmitFlight(lastType: nat) returns (lastType': nat)
      requires Sendable(sendBuffer, hskMtu)
      modifies this`wire, this`allocCalls
      ensures Progress() == SendFlight(sendBuffer, hskMtu, env, old(Progress()))
      ensures lastType' == if sendBuffer == [] then lastType else LastType(sendBuffer)
    {
      lastType' := lastType;
      var i := 0;
      while i < |sendBuffer|
        invariant 0 <= i <= |sendBuffer|
        invariant Sendable(sendBuffer[i..], hskMtu)
        invariant SendFlight(sendBuffer[i..], hskMtu, env, Progress()) == SendFlight(sendBuffer, hskMtu, env, old(Progress()))
        invariant lastType' == if i == 0 then lastType else sendBuffer[i - 1].htype
      {
        SendableSuffix(sendBuffer, hskMtu, i + 1);
        assert sendBuffer[i..][0] == sendBuffer[i] && sendBuffer[i..][1..] == sendBuffer[i + 1..];
        var _ := TransmitMessage(sendBuffer[i]);
        lastType' := sendBuffer[i].htype;
        i := i + 1;
      }
      assert sendBuffer[i..] == [];
    }

    /** The wait of one round. After a Finished message that ends this
        side's handshake (a server's full handshake, a client's resumed
        one) it waits for one byte: a timeout is success and a handshake
        record from the peer means it retransmits, returned as
        GNUTLS_E_TIMEDOUT. Otherwise it waits for the peer's next flight
        and returns the wait's answer. */
    method AwaitAck(lastType: nat) returns (ret: int)
      modifies this`peekCalls
      ensures peekCalls == old(peekCalls) + 1
      ensures ret == AckVerdict(
        lastType == HANDSHAKE_FINISHED && ((entity == Server && !resumed) || (entity == Client && resumed)),
        env.peek(old(peekCalls)))
    {
      if lastType == HANDSHAKE_FINISHED
         && ((entity == Server && !resumed) || (entity == Client && resumed))
      {
        var p := CheckRecv();
        ret := p.ret;
        if ret == GNUTLS_E_TIMEDOUT {
          ret := 0;
        } else if ret >= 0 {
          if p.first == CONTENT_HANDSHAKE {
            ret := GNUTLS_E_TIMEDOUT;
          }
        }
      } else {
        var p := CheckRecv();
        ret := p.ret;
      }
    }

    /** One pass of the do-while body of `_gnutls_dtls_transmit`: sends the
        flight, flushes, waits and charges the retransmission timeout to
        the unsigned 32-bit accumulator. It is round `done + 1` of a run: a
        failed flush or an exit ends the run here, and a retransmission
        leaves the rest of it to the next pass. */
    method FlightRound(lastType: nat, elapsed: uint32, ghost cfg: Config, ghost buf: seq<BufferedMessage>,
                       ghost fuel: nat, ghost done: nat)
      returns (lastType': nat, end: RoundEnd)
      requires cfg == Settings() && buf == sendBuffer
      requires Sendable(buf, cfg.mtu) && 0 < fuel
      requires lastType == 0 || lastType == LastType(buf)
      modifies this`wire, this`allocCalls, this`flushCalls, this`peekCalls
      ensures lastType' == 0 || lastType' == LastType(buf)
      ensures end.FlushFailed? ==>
        Run(cfg, buf, env, old(Progress()), elapsed, fuel, done)
          == Some(Outcome(Progress(), end.code, false, done + 1))
      ensures end.Exit? ==>
        Run(cfg, buf, env, old(Progress()), elapsed, fuel, done)
          == Some(Outcome(Progress(), if end.code < 0 then end.code else 0, true, done + 1))
      ensures end.Retransmit? ==>
        Run(cfg, buf, env, old(Progress()), elapsed, fuel, done)
          == Run(cfg, buf, env, Progress(), end.elapsed, fuel - 1, done + 1)
      ensures Round(cfg, buf, env, old(Progress()), elapsed) == Step(Progress(), end)
      ensures var sent := SendFlight(buf, cfg.mtu, env, old(Progress()));
        && (end.FlushFailed? ==> Progress() == sent.(flushes := sent.flushes + 1))
        && (!end.FlushFailed? ==> Progress() == sent.(flushes := sent.flushes + 1, peeks := sent.peeks + 1))
        && (end.Retransmit? ==> end.elapsed == Elapse(elapsed, cfg.retransTimeout))
    {
      ghost var io := Progress();
      ghost var sent := SendFlight(buf, cfg.mtu, env, io);
      lastType' := TransmitFlight(lastType);
      var ret := WriteFlush();
      if ret < 0 {
        RunFlushFails(cfg, buf, env, io, elapsed, fuel, done);
        return lastType', FlushFailed(ret);
      }
      assert lastType' == LastType(buf) && peekCalls == sent.peeks;
      ret := AwaitAck(lastType');
      var elapsed' := Elapse(elapsed, retransTimeout);  // unsigned 32-bit +=
      if elapsed' >= totalTimeout {
        BudgetOverridesAck(cfg, buf, env, io, elapsed, fuel, done);
        return lastType', Exit(GNUTLS_E_TIMEDOUT);  // goto cleanup
      }
      if ret == GNUTLS_E_TIMEDOUT {
        RunRetransmits(cfg, buf, env, io, elapsed, fuel, done);
        end := Retransmit(elapsed');
      } else {
        RunEndsOnVerdict(cfg, buf, env, io, elapsed, fuel, done);
        end := Exit(ret);
      }
    }

    /** The do-while loop of `_gnutls_dtls_transmit`: rounds while a round
        asks for a retransmission. Returns the answer of the round that ends
        it and whether it left the loop towards the cleanup (an exit) rather
        than by the early return of a failed flush. */
    method TransmitRounds(ghost fuel: nat) returns (ret: int, cleanup: bool)
      requires Sendable(sendBuffer, hskMtu)
      requires Run(Settings(), sendBuffer, env, Progress(), 0, fuel, 0).Some?
      modifies this`wire, this`allocCalls, this`flushCalls, this`peekCalls
      ensures var out := Run(Settings(), sendBuffer, env, old(Progress()), 0, fuel, 0).value;
        && (if cleanup then (if ret < 0 then ret else 0) else ret) == out.ret
        && Progress() == out.io
        && cleanup == out.cleanup
    {
      ghost var cfg := Settings();
      ghost var buf := sendBuffer;
      ghost var whole := Run(cfg, buf, env, Progress(), 0, fuel, 0);
      var elapsed: uint32 := 0;
      var lastType: nat := 0;
      ghost var done: nat := 0;
      while true
        invariant done <= fuel
        invariant Settings() == cfg && sendBuffer == buf
        invariant Run(cfg, buf, env, Progress(), elapsed, fuel - done, done) == whole
        invariant lastType == 0 || lastType == LastType(buf)
        decreases fuel - done
      {
        var end;
        lastType, end := FlightRound(lastType, elapsed, cfg, buf, fuel - done, done);
        match end
        case FlushFailed(code) =>
          return code, false;
        case Exit(code) =>
          return code, true;
        case Retransmit(e) =>
          elapsed := e;
          done := done + 1;
      }
    }

    /** `_gnutls_dtls_transmit`: sends the buffered flight, flushes and
        waits, round after round while the round asks for a retransmission
        and the timeout budget lasts. `fuel` bounds the rounds the
        environment lets the run take. A failed flush returns its answer at
        once; otherwise a negative answer stands, any other becomes 0, and
        the epoch counts are released and the send buffer emptied. */
    method Transmit(ghost fuel: nat) returns (ret: int)
      requires Sendable(sendBuffer, hskMtu)
      requires Run(Settings(), sendBuffer, env, Progress(), 0, fuel, 0).Some?
      modifies this
      ensures Settings() == old(Settings())
      ensures var out := Run(old(Settings()), old(sendBuffer), env, old(Progress()), 0, fuel, 0).value;
        && ret == out.ret
        && Progress() == out.io
        && (out.cleanup ==> sendBuffer == [] && epochs == Drop(old(sendBuffer), old(epochs)).usage)
        && (!out.cleanup ==> sendBuffer == old(sendBuffer) && epochs == old(epochs))
    {
      var cleanup;
      ret, cleanup := TransmitRounds(fuel);
      if !cleanup {
        return;
      }
      if ret >= 0 {
        ret := 0;
      }
      Cleanup();
    }

    /** The `cleanup` exit of `_gnutls_dtls_transmit`: releases the epoch
        counts of the buffered messages, ignoring failure, and empties the
        send buffer. */
    method Cleanup()
      modifies this`epochs, this`sendBuffer
      ensures epochs == Drop(old(sendBuffer), old(epochs)).usage
      ensures sendBuffer == []
    {
      var _ := DropUsageCount();
      sendBuffer := [];
    }
  }
}
