/** The fragment encoding of `transmit_message`: the 12-byte DTLS handshake
    header (RFC 6347, section 4.2.2) and the cutting of one handshake body
    into MTU-sized fragments (RFC 6347, section 4.2.3), as the source's
    `offset <= data_size` loop produces them. */
module Fragmentation {
  import opened DtlsTypes

  /** `_gnutls_write_uint16`: the low 16 bits, big-endian. */
  function Uint16(n: nat): seq<byte>
  {
    [(n / 0x100) % 0x100, n % 0x100]
  }

  /** `_gnutls_write_uint24`: a 24-bit value, big-endian. */
  function Uint24(n: nat): seq<byte>
    requires n <= MAX_UINT24
  {
    [n / 0x1_0000, (n / 0x100) % 0x100, n % 0x100]
  }

  function ReadUint16(b: seq<byte>): nat
    requires |b| == 2
  {
    (b[0] as int) * 0x100 + b[1]
  }

  function ReadUint24(b: seq<byte>): nat
    requires |b| == 3
  {
    (b[0] as int) * 0x1_0000 + (b[1] as int) * 0x100 + b[2]
  }

  lemma Uint16RoundTrip(n: nat)
    ensures |Uint16(n)| == 2 && ReadUint16(Uint16(n)) == n % 0x1_0000
  {
    var q := n / 0x1_0000;
    var r := n % 0x1_0000;
    assert n == q * 0x1_0000 + r;
    assert (n / 0x100) % 0x100 == r / 0x100 by {
      assert n / 0x100 == q * 0x100 + r / 0x100;
    }
    assert n % 0x100 == r % 0x100 by {
      assert n == (q * 0x100 + r / 0x100) * 0x100 + r % 0x100;
    }
  }

  lemma Uint24RoundTrip(n: nat)
    requires n <= MAX_UINT24
    ensures |Uint24(n)| == 3 && ReadUint24(Uint24(n)) == n
  {
    var hi := n / 0x1_0000;
    var lo := n % 0x1_0000;
    assert n / 0x100 == hi * 0x100 + lo / 0x100;
    assert n % 0x100 == lo % 0x100;
  }

  /** Length of the fragment starting at `offset` (lines 81-84). */
  function FragmentLength(size: nat, mtu: nat, offset: nat): (len: nat)
    requires offset <= size
    ensures len <= mtu && offset + len <= size
    ensures len == mtu || offset + len == size
  {
    if offset + mtu > size then size - offset else mtu
  }

  /** The first six header bytes, the same in every fragment of a message:
      type, total length, message sequence. */
  function MessageHeader(htype: nat, size: nat, sequence: nat): seq<byte>
    requires size <= MAX_UINT24
  {
    [htype % 0x100] + Uint24(size) + Uint16(sequence)
  }

  /** The 12-byte header: the message header, then fragment offset and
      fragment length. */
  function FragmentHeader(htype: nat, size: nat, sequence: nat, offset: nat, len: nat): seq<byte>
    requires size <= MAX_UINT24 && offset <= MAX_UINT24 && len <= MAX_UINT24
  {
    MessageHeader(htype, size, sequence) + Uint24(offset) + Uint24(len)
  }

  /** The record built for the fragment of `m` starting at `offset`: the
      header followed by the fragment's bytes of the body. */
  function FragmentAt(m: BufferedMessage, mtu: nat, offset: nat): seq<byte>
    requires |m.userData| <= MAX_UINT24 && offset <= |m.userData|
  {
    var len := FragmentLength(|m.userData|, mtu, offset);
    FragmentHeader(m.htype, |m.userData|, m.sequence, offset, len)
      + m.userData[offset .. offset + len]
  }

  /** The fragments the loop emits from `offset` on, in emission order. */
  function FragmentsFrom(m: BufferedMessage, mtu: nat, offset: nat): seq<seq<byte>>
    requires 0 < mtu && |m.userData| <= MAX_UINT24
    decreases |m.userData| - offset
  {
    if offset > |m.userData| then []
    else [FragmentAt(m, mtu, offset)] + FragmentsFrom(m, mtu, offset + mtu)
  }

  /** All fragments of one handshake message. */
  function Fragments(m: BufferedMessage, mtu: nat): seq<seq<byte>>
    requires 0 < mtu && |m.userData| <= MAX_UINT24
  {
    FragmentsFrom(m, mtu, 0)
  }

  /** The fields a receiver reads back from a fragment record. */
  datatype FragmentView = FragmentView(
    htype: byte,
    length: nat,
    sequence: nat,
    offset: nat,
    fragmentLength: nat,
    body: seq<byte>)

  function ParseFragment(rec: seq<byte>): Option<FragmentView>
  {
    if |rec| < DTLS_HANDSHAKE_HEADER_SIZE then None
    else Some(FragmentView(rec[0], ReadUint24(rec[1..4]), ReadUint16(rec[4..6]),
                           ReadUint24(rec[6..9]), ReadUint24(rec[9..12]), rec[12..]))
  }

  /** The bytes after the header of a fragment record. */
  function Body(rec: seq<byte>): seq<byte>
  {
    if |rec| < DTLS_HANDSHAKE_HEADER_SIZE then [] else rec[DTLS_HANDSHAKE_HEADER_SIZE..]
  }

  /** Concatenation of the fragment bodies, in emission order. */
  function Reassemble(frags: seq<seq<byte>>): seq<byte>
  {
    if frags == [] then [] else Body(frags[0]) + Reassemble(frags[1..])
  }

  /** Every fragment record is its 12-byte header followed by exactly
      `fragment length` bytes; the length is `min(mtu, size - offset)`, never
      more than the MTU; the header fields read back as the message type
      (as a byte), the total length, the sequence (low 16 bits), the offset
      and the fragment length. */
  lemma FragmentLayout(m: BufferedMessage, mtu: nat, offset: nat)
    requires |m.userData| <= MAX_UINT24 && offset <= |m.userData|
    ensures var len := FragmentLength(|m.userData|, mtu, offset);
      && len <= mtu
      && len == (if mtu < |m.userData| - offset then mtu else |m.userData| - offset)
      && |FragmentAt(m, mtu, offset)| == DTLS_HANDSHAKE_HEADER_SIZE + len
      && ParseFragment(FragmentAt(m, mtu, offset))
         == Some(FragmentView(m.htype % 0x100, |m.userData|, m.sequence % 0x1_0000, offset, len,
                              m.userData[offset .. offset + len]))
  {
    var size := |m.userData|;
    var len := FragmentLength(size, mtu, offset);
    var rec := FragmentAt(m, mtu, offset);
    Uint24RoundTrip(size);
    Uint16RoundTrip(m.sequence);
    Uint24RoundTrip(offset);
    Uint24RoundTrip(len);
    assert rec[1..4] == Uint24(size);
    assert rec[4..6] == Uint16(m.sequence);
    assert rec[6..9] == Uint24(offset);
    assert rec[9..12] == Uint24(len);
    assert rec[12..] == m.userData[offset .. offset + len];
  }

  /** A fragment record's body is the fragment's slice of the message. */
  lemma FragmentBody(m: BufferedMessage, mtu: nat, offset: nat)
    requires |m.userData| <= MAX_UINT24 && offset <= |m.userData|
    ensures var len := FragmentLength(|m.userData|, mtu, offset);
      offset + len <= |m.userData| && Body(FragmentAt(m, mtu, offset)) == m.userData[offset .. offset + len]
  {
    var len := FragmentLength(|m.userData|, mtu, offset);
    var h := FragmentHeader(m.htype, |m.userData|, m.sequence, offset, len);
    assert |h| == DTLS_HANDSHAKE_HEADER_SIZE;
    assert (h + m.userData[offset .. offset + len])[DTLS_HANDSHAKE_HEADER_SIZE..] == m.userData[offset .. offset + len];
  }

  /** The loop emits the fragment at `offset`, then those after it. */
  lemma FragmentsFromCons(m: BufferedMessage, mtu: nat, offset: nat)
    requires 0 < mtu && |m.userData| <= MAX_UINT24 && offset <= |m.userData|
    ensures FragmentsFrom(m, mtu, offset) == [FragmentAt(m, mtu, offset)] + FragmentsFrom(m, mtu, offset + mtu)
  {
  }

  lemma {:induction false} FragmentsFromCount(m: BufferedMessage, mtu: nat, offset: nat)
    requires 0 < mtu && |m.userData| <= MAX_UINT24 && offset <= |m.userData|
    ensures |FragmentsFrom(m, mtu, offset)| == (|m.userData| - offset) / mtu + 1
    decreases |m.userData| - offset
  {
    var rest := |m.userData| - offset;
    FragmentsFromCons(m, mtu, offset);
    if offset + mtu <= |m.userData| {
      FragmentsFromCount(m, mtu, offset + mtu);
      DivStep(rest, mtu);
    } else {
      assert FragmentsFrom(m, mtu, offset + mtu) == [];
      DivSmall(rest, mtu);
    }
  }

  lemma DivSmall(a: nat, d: nat)
    requires a < d
    ensures a / d == 0
  {
  }

  lemma DivStep(a: nat, d: nat)
    requires 0 < d <= a
    ensures a / d == (a - d) / d + 1
  {
    var q := (a - d) / d;
    var r := (a - d) % d;
    assert a - d == q * d + r;
    MulSucc(q, d);
    DivUnique(a, d, q + 1, r);
  }

  lemma MulSucc(q: int, d: int)
    ensures (q + 1) * d == q * d + d
  {
  }

  lemma DivUnique(a: int, d: int, q: int, r: int)
    requires 0 < d && 0 <= r < d && a == q * d + r
    ensures a / d == q
  {
    var q', r' := a / d, a % d;
    assert a == q' * d + r';
    if q' < q {
      MulLe(q' + 1, q, d);
      MulSucc(q', d);
    } else if q < q' {
      MulLe(q + 1, q', d);
      MulSucc(q, d);
    }
  }

  lemma MulLe(x: int, y: int, d: int)
    requires x <= y && 0 < d
    ensures x * d <= y * d
  {
    assert y * d - x * d == (y - x) * d;
  }

  /** The loop `offset <= data_size` emits exactly `data_size / mtu + 1`
      fragments. */
  lemma FragmentCount(m: BufferedMessage, mtu: nat)
    requires 0 < mtu && |m.userData| <= MAX_UINT24
    ensures |Fragments(m, mtu)| == |m.userData| / mtu + 1
  {
    FragmentsFromCount(m, mtu, 0);
  }

  /** `i` steps of the MTU. */
  function Stride(i: nat, mtu: nat): nat
  {
    if i == 0 then 0 else Stride(i - 1, mtu) + mtu
  }

  lemma {:induction false} StrideIsProduct(i: nat, mtu: nat)
    ensures Stride(i, mtu) == i * mtu
  {
    if i > 0 {
      StrideIsProduct(i - 1, mtu);
      MulSucc(i - 1, mtu);
    }
  }

  lemma {:induction false} FragmentsFromIndex(m: BufferedMessage, mtu: nat, offset: nat, i: nat, at: nat)
    requires 0 < mtu && |m.userData| <= MAX_UINT24
    requires i < |FragmentsFrom(m, mtu, offset)| && at == offset + Stride(i, mtu)
    ensures at <= |m.userData|
    ensures FragmentsFrom(m, mtu, offset)[i] == FragmentAt(m, mtu, at)
    decreases i
  {
    if i > 0 {
      FragmentsFromIndex(m, mtu, offset + mtu, i - 1, at);
    }
  }

  /** The i-th fragment starts at offset i * mtu. */
  lemma FragmentIndex(m: BufferedMessage, mtu: nat, i: nat)
    requires 0 < mtu && |m.userData| <= MAX_UINT24
    requires i < |Fragments(m, mtu)|
    ensures i * mtu <= |m.userData|
    ensures Fragments(m, mtu)[i] == FragmentAt(m, mtu, i * mtu)
  {
    StrideIsProduct(i, mtu);
    FragmentsFromIndex(m, mtu, 0, i, i * mtu);
  }

  lemma ReassembleCons(rec: seq<byte>, rest: seq<seq<byte>>)
    ensures Reassemble([rec] + rest) == Body(rec) + Reassemble(rest)
  {
    assert ([rec] + rest)[0] == rec && ([rec] + rest)[1..] == rest;
  }

  lemma {:induction false} ReassembleFrom(m: BufferedMessage, mtu: nat, offset: nat)
    requires 0 < mtu && |m.userData| <= MAX_UINT24 && offset <= |m.userData|
    ensures Reassemble(FragmentsFrom(m, mtu, offset)) == m.userData[offset..]
    decreases |m.userData| - offset
  {
    var rec, rest, next := FragmentsFromSplit(m, mtu, offset);
    if offset + mtu <= |m.userData| {
      ReassembleFrom(m, mtu, next);
    } else {
      assert Reassemble(rest) == [] == m.userData[next..];
    }
    ReassembleStep(FragmentsFrom(m, mtu, offset), rec, rest, m.userData, offset, next);
  }

  /** The fragments from `offset` on are a first record carrying the body
      bytes from `offset` to `next`, followed by the fragments from `next`
      on, or by nothing once the body is exhausted. */
  lemma FragmentsFromSplit(m: BufferedMessage, mtu: nat, offset: nat)
      returns (rec: seq<byte>, rest: seq<seq<byte>>, next: nat)
    requires 0 < mtu && |m.userData| <= MAX_UINT24 && offset <= |m.userData|
    ensures FragmentsFrom(m, mtu, offset) == [rec] + rest
    ensures offset <= next <= |m.userData| && Body(rec) == m.userData[offset..next]
    ensures offset + mtu <= |m.userData| ==> next == offset + mtu && rest == FragmentsFrom(m, mtu, next)
    ensures offset + mtu > |m.userData| ==> next == |m.userData| && rest == []
  {
    rec := FragmentAt(m, mtu, offset);
    rest := FragmentsFrom(m, mtu, offset + mtu);
    next := offset + FragmentLength(|m.userData|, mtu, offset);
    FragmentsFromCons(m, mtu, offset);
    FragmentBody(m, mtu, offset);
  }

  /** One step of the reassembly: a first record carrying `data[i..j]`
      followed by records carrying `data[j..]` carry `data[i..]`. */
  lemma ReassembleStep(frags: seq<seq<byte>>, rec: seq<byte>, rest: seq<seq<byte>>,
                       data: seq<byte>, i: nat, j: nat)
    requires frags == [rec] + rest && i <= j <= |data|
    requires Body(rec) == data[i..j] && Reassemble(rest) == data[j..]
    ensures Reassemble(frags) == data[i..]
  {
    ReassembleCons(rec, rest);
    SliceSplit(data, i, j);
  }

  lemma SliceSplit(s: seq<byte>, i: nat, j: nat)
    requires i <= j <= |s|
    ensures s[i..] == s[i..j] + s[j..]
  {
  }

  /** Round trip: the fragment bodies, concatenated in emission order,
      reproduce the message body exactly. */
  lemma FragmentsReassemble(m: BufferedMessage, mtu: nat)
    requires 0 < mtu && |m.userData| <= MAX_UINT24
    ensures Reassemble(Fragments(m, mtu)) == m.userData
  {
    ReassembleFrom(m, mtu, 0);
  }

  /** A body whose length is a multiple of the MTU (zero included) ends
      with a zero-length fragment at offset == length; an empty body is
      sent as exactly one empty fragment. */
  lemma TrailingEmptyFragment(m: BufferedMessage, mtu: nat)
    requires 0 < mtu && |m.userData| <= MAX_UINT24
    requires |m.userData| % mtu == 0
    ensures var frags := Fragments(m, mtu);
      && |frags| == |m.userData| / mtu + 1
      && ParseFragment(frags[|frags| - 1])
         == Some(FragmentView(m.htype % 0x100, |m.userData|, m.sequence % 0x1_0000, |m.userData|, 0, []))
      && (|m.userData| == 0 ==> |frags| == 1)
  {
    var size := |m.userData|;
    var frags := Fragments(m, mtu);
    FragmentCount(m, mtu);
    ExactMultiple(size, mtu);
    FragmentIndex(m, mtu, size / mtu);
    assert frags[|frags| - 1] == FragmentAt(m, mtu, size);
    assert ParseFragment(FragmentAt(m, mtu, size))
        == Some(FragmentView(m.htype % 0x100, size, m.sequence % 0x1_0000, size, 0, [])) by {
      FragmentLayout(m, mtu, size);
      assert FragmentLength(size, mtu, size) == 0;
    }
  }

  lemma ExactMultiple(size: nat, mtu: nat)
    requires 0 < mtu && size % mtu == 0
    ensures (size / mtu) * mtu == size
  {
    assert size == (size / mtu) * mtu + size % mtu;
  }
}
