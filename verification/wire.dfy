/**
 * The byte layout of the stream protocol: the fixed 8-byte packet header
 * (two 32-bit words in network byte order, `id` then `length`) and the
 * framed control message the client writes to the socket.
 */
module Wire {

  /** sizeof(LowLatencyStreamPacketHeader): two 32-bit words. */
  const HeaderSize: nat := 8

  /** 2^32, the modulus of the header's unsigned 32-bit fields. */
  const Word: nat := 0x1_0000_0000

  type byte = x: int | 0 <= x < 256
  type u32 = x: int | 0 <= x < 0x1_0000_0000

  datatype Header = Header(id: u32, length: u32)

  /** `ntohl` applied to four bytes read from the wire. */
  function DecodeBE32(b: seq<byte>): u32
    requires |b| == 4
  {
    ((b[0] as int * 256 + b[1]) * 256 + b[2]) * 256 + b[3]
  }

  /** `htonl`: the four bytes written to the wire for `x`, most significant first. */
  function EncodeBE32(x: u32): (b: seq<byte>)
    ensures |b| == 4
    ensures DecodeBE32(b) == x
    ensures b[0] == x / 0x100_0000
  {
    [x / 0x100_0000, x / 0x1_0000 % 256, x / 256 % 256, x % 256]
  }

  /** The header held by the first eight bytes of a buffer, in host order. */
  function DecodeHeader(b: seq<byte>): Header
    requires |b| >= HeaderSize
  {
    Header(DecodeBE32(b[0..4]), DecodeBE32(b[4..8]))
  }

  function EncodeHeader(h: Header): (b: seq<byte>)
    ensures |b| == HeaderSize
    ensures DecodeHeader(b) == h
  {
    var hi, lo := EncodeBE32(h.id), EncodeBE32(h.length);
    assert (hi + lo)[0..4] == hi && (hi + lo)[4..8] == lo;
    hi + lo
  }

  /**
   * The frame of one outbound control message: a header with `id` =
   * METADATA_ID and `length` = payload length + header size, truncated to
   * the 32-bit field, followed by the payload, sent as one logical write.
   */
  function Frame(metadataId: u32, payload: seq<byte>): (w: seq<byte>)
    ensures |w| == HeaderSize + |payload|
    ensures DecodeHeader(w).id == metadataId
    ensures DecodeHeader(w).length == (|payload| + HeaderSize) % Word
    ensures |payload| + HeaderSize < Word ==> DecodeHeader(w).length == |w|
    ensures w[HeaderSize..] == payload
  {
    var h := EncodeHeader(Header(metadataId, (|payload| + HeaderSize) % Word));
    assert (h + payload)[..HeaderSize] == h;
    h + payload
  }

  /**
   * Bitwise AND of two unsigned values, bit by bit from the least
   * significant end (the C `&` operator).
   */
  function BitAnd(a: nat, b: nat): (r: nat)
    ensures r <= a && r <= b
  {
    if a == 0 || b == 0 then 0
    else 2 * BitAnd(a / 2, b / 2) + (if a % 2 == 1 && b % 2 == 1 then 1 else 0)
  }

  /** Every value is all of its own bits: `x & x == x`. */
  lemma {:induction false} BitAndSelf(x: nat)
    ensures BitAnd(x, x) == x
  {
    if x != 0 {
      BitAndSelf(x / 2);
    }
  }

  /** A value below 2^k shares no bit with a multiple of 2^k (here k = 3). */
  lemma {:induction false} BitAndLowBits(a: nat, m: nat)
    requires a < 8 && m % 8 == 0
    ensures BitAnd(a, m) == 0
  {
    var q := m / 8;
    assert m == 8 * q;
    // m has its three low bits clear, so each of the first three steps adds no bit
    assert BitAnd(a / 8, q) == 0;
    assert BitAnd(a / 4, 2 * q) == 2 * BitAnd(a / 8, q);
    assert BitAnd(a / 2, 4 * q) == 2 * BitAnd(a / 4, 2 * q);
    assert BitAnd(a, 8 * q) == 2 * BitAnd(a / 2, 4 * q);
  }

  /**
   * A uint32 identifier converted to a C `int` (two's complement), as done
   * when it is used as a key of the subscribed-channels map.
   */
  function AsInt32(x: u32): (i: int)
    ensures -0x8000_0000 <= i < 0x8000_0000
    ensures i % Word == x
    ensures x < 0x8000_0000 ==> i == x
  {
    if x < 0x8000_0000 then x else x - Word
  }
}
