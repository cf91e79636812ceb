/** Values shared by the DTLS flight engine: wire constants, gnutls error
    codes, the buffered handshake message, the record handed to the record
    layer, and the environment that answers the engine's calls. */
module DtlsTypes {

  type byte = x: int | 0 <= x < 0x100
  type uint32 = x: int | 0 <= x < 0x1_0000_0000

  const UINT32_MODULUS: int := 0x1_0000_0000
  const MAX_UINT24: int := 0xFF_FFFF

  // gnutls error codes (negative return values)
  const GNUTLS_E_MEMORY_ERROR: int := -25
  const GNUTLS_E_INVALID_REQUEST: int := -50
  const GNUTLS_E_INTERNAL_ERROR: int := -59
  const GNUTLS_E_TIMEDOUT: int := -319

  // Outer record content types
  const CONTENT_CHANGE_CIPHER_SPEC: nat := 20
  const CONTENT_HANDSHAKE: nat := 22

  // Handshake message types (gnutls_handshake_description_t)
  const HANDSHAKE_FINISHED: nat := 20
  const HANDSHAKE_CHANGE_CIPHER_SPEC: nat := 254

  /** Size of the DTLS handshake fragment header (RFC 6347, section 4.2.2). */
  const DTLS_HANDSHAKE_HEADER_SIZE: nat := 12

  datatype Option<T> = None | Some(value: T)

  datatype Entity = Server | Client

  /** One message of the handshake send buffer. `userHeader` is the buffer's
      header area (what a change-cipher-spec message sends), `userData` the
      handshake body that is fragmented. */
  datatype BufferedMessage = BufferedMessage(
    htype: nat,
    sequence: nat,
    epoch: nat,
    userHeader: seq<byte>,
    userData: seq<byte>)

  /** One call of the record-layer send primitive: outer content type,
      inner handshake type (-1 for change-cipher-spec), epoch and bytes. */
  datatype Record = Record(contentType: nat, htype: int, epoch: nat, payload: seq<byte>)

  /** Answer of the bounded receive-peek: its return value and, when one byte
      was asked for, that byte. */
  datatype Peek = Peek(ret: int, first: byte)

  /** The collaborators the engine calls, each as the answer to its n-th call:
      the record-layer send, the allocator of the fragment buffer (true when
      the allocation succeeds), the transport flush and the receive-peek. */
  datatype Environment = Environment(
    send: nat -> int,
    alloc: nat -> bool,
    flush: nat -> int,
    peek: nat -> Peek)

  /** The session settings the engine reads. */
  datatype Config = Config(
    entity: Entity,
    resumed: bool,
    mtu: nat,
    retransTimeout: uint32,
    totalTimeout: uint32)

  /** What the engine has done to its environment so far: every record handed
      to the record layer, in order, and how many allocations, flushes and
      peeks it has made. The n-th send is answered by send(n), n == |wire|. */
  datatype Io = Io(wire: seq<Record>, allocs: nat, flushes: nat, peeks: nat)

  /** The handshake MTU is positive and small enough that neither
      `mtu + 12` nor `offset + mtu` (offset < 2^24) wraps in 32 bits. */
  predicate MtuFits(mtu: nat)
  {
    0 < mtu && mtu + MAX_UINT24 < UINT32_MODULUS
  }

  /** Every buffered body fits the 24-bit length field and the MTU fits. */
  predicate Sendable(buf: seq<BufferedMessage>, mtu: nat)
  {
    MtuFits(mtu) && forall i :: 0 <= i < |buf| ==> |buf[i].userData| <= MAX_UINT24
  }
}
