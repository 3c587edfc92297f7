/**
 * 32-bit words, bytes and the conversion between host and network byte
 * order (GLib's g_htonl / g_ntohl), for a host of either endianness.
 */
module ByteOrder {

  type Byte = b: int | 0 <= b < 0x100
  type Word = w: int | 0 <= w < 0x1_0000_0000

  /** The byte order of the machine the client runs on. */
  datatype Endianness = LittleEndian | BigEndian

  /** The four bytes of `w`, most significant first: network byte order. */
  function NetworkBytes(w: Word): (bs: seq<Byte>)
    ensures |bs| == 4
  {
    [w / 0x100 / 0x100 / 0x100, w / 0x100 / 0x100 % 0x100, w / 0x100 % 0x100, w % 0x100]
  }

  /** The word whose network-order bytes are `bs`. */
  function FromNetworkBytes(bs: seq<Byte>): Word
    requires |bs| == 4
  {
    ((bs[0] as int * 0x100 + bs[1] as int) * 0x100 + bs[2] as int) * 0x100 + bs[3] as int
  }

  function Reverse4(bs: seq<Byte>): (r: seq<Byte>)
    requires |bs| == 4
    ensures |r| == 4
  {
    [bs[3], bs[2], bs[1], bs[0]]
  }

  /** How a 32-bit integer lies in the host's memory. */
  function HostBytes(e: Endianness, w: Word): (bs: seq<Byte>)
    ensures |bs| == 4
  {
    match e
    case BigEndian => NetworkBytes(w)
    case LittleEndian => Reverse4(NetworkBytes(w))
  }

  /** The integer the host reads from four bytes of its memory. */
  function FromHostBytes(e: Endianness, bs: seq<Byte>): Word
    requires |bs| == 4
  {
    match e
    case BigEndian => FromNetworkBytes(bs)
    case LittleEndian => FromNetworkBytes(Reverse4(bs))
  }

  /** g_htonl: a byte swap on a little-endian host, the identity on a big-endian one. */
  function Htonl(e: Endianness, w: Word): (r: Word)
    ensures e.BigEndian? ==> r == w
    ensures e.LittleEndian? ==> NetworkBytes(r) == Reverse4(NetworkBytes(w))
  {
    match e
    case BigEndian => w
    case LittleEndian =>
      FromNetworkBytesRoundTrip(Reverse4(NetworkBytes(w)));
      FromNetworkBytes(Reverse4(NetworkBytes(w)))
  }

  /** g_ntohl: GLib defines it as the same conversion as g_htonl. */
  function Ntohl(e: Endianness, w: Word): (r: Word)
    ensures e.BigEndian? ==> r == w
    ensures e.LittleEndian? ==> NetworkBytes(r) == Reverse4(NetworkBytes(w))
  {
    Htonl(e, w)
  }

  lemma NetworkBytesRoundTrip(w: Word)
    ensures FromNetworkBytes(NetworkBytes(w)) == w
  {
    var q1 := w / 0x100;
    var q2 := q1 / 0x100;
    assert w == q1 * 0x100 + w % 0x100;
    assert q1 == q2 * 0x100 + q1 % 0x100;
    assert q2 == q2 / 0x100 * 0x100 + q2 % 0x100;
  }

  lemma FromNetworkBytesRoundTrip(bs: seq<Byte>)
    requires |bs| == 4
    ensures NetworkBytes(FromNetworkBytes(bs)) == bs
  {
    var hi := bs[0] as int * 0x100 + bs[1] as int;
    var mid := hi * 0x100 + bs[2] as int;
    ShiftByte(mid, bs[3]);
    ShiftByte(hi, bs[2]);
    ShiftByte(bs[0] as int, bs[1]);
  }

  /** Appending a byte below `q` is undone by one division by 0x100. */
  lemma ShiftByte(q: nat, b: Byte)
    ensures (q * 0x100 + b) / 0x100 == q && (q * 0x100 + b) % 0x100 == b
  {
  }

  /** Distinct words have distinct network images. */
  lemma NetworkBytesInjective(v: Word, w: Word)
    ensures NetworkBytes(v) == NetworkBytes(w) <==> v == w
  {
    NetworkBytesRoundTrip(v);
    NetworkBytesRoundTrip(w);
  }

  lemma HostBytesRoundTrip(e: Endianness, bs: seq<Byte>)
    requires |bs| == 4
    ensures HostBytes(e, FromHostBytes(e, bs)) == bs
  {
    match e
    case BigEndian => FromNetworkBytesRoundTrip(bs);
    case LittleEndian => FromNetworkBytesRoundTrip(Reverse4(bs));
  }

  /**
   * After g_htonl, the host's memory holds the word in network byte order,
   * whatever the host's own byte order is.
   */
  lemma HtonlStoresNetworkOrder(e: Endianness, w: Word)
    ensures HostBytes(e, Htonl(e, w)) == NetworkBytes(w)
  {
    match e
    case BigEndian =>
    case LittleEndian => FromNetworkBytesRoundTrip(Reverse4(NetworkBytes(w)));
  }

  /**
   * Reading network-order bytes into host memory and applying g_ntohl yields
   * the word those bytes denote in network order.
   */
  lemma NtohlReadsNetworkOrder(e: Endianness, bs: seq<Byte>)
    requires |bs| == 4
    ensures Ntohl(e, FromHostBytes(e, bs)) == FromNetworkBytes(bs)
  {
    match e
    case BigEndian =>
    case LittleEndian => FromNetworkBytesRoundTrip(Reverse4(bs));
  }

  /** g_ntohl undoes g_htonl. */
  lemma NtohlUndoesHtonl(e: Endianness, w: Word)
    ensures Ntohl(e, Htonl(e, w)) == w
  {
    match e
    case BigEndian =>
    case LittleEndian =>
      FromNetworkBytesRoundTrip(Reverse4(NetworkBytes(w)));
      NetworkBytesRoundTrip(w);
  }
}
