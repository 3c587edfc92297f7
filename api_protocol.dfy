/**
 * The datagram protocol between a gdigi client and the gdigi server: the
 * operation codes, the fixed four-field request and three-field response,
 * and their wire images, every field a 32-bit integer in network byte order.
 */
module ApiProtocol {
  import opened ByteOrder

  /** Operation codes of a request (gdigi_api_op_t). */
  const GetParameterOp: Word := 1
  const SetParameterOp: Word := 2

  /** Bytes in a request and in a response: four and three 32-bit fields. */
  const RequestSize: nat := 16
  const ResponseSize: nat := 12

  /** gdigi_api_request_t; `value` is ignored for a get. */
  datatype Request = Request(op: Word, id: Word, position: Word, value: Word)

  /** gdigi_api_response_t, sent only in answer to a get. */
  datatype Response = Response(id: Word, position: Word, value: Word)

  datatype Result<+T, +E> = Ok(value: T) | Err(error: E)

  /** A datagram too short to hold a message; `got` is how many bytes there were. */
  datatype DecodeError = ShortRead(got: nat)

  /** The k-th 32-bit field of a datagram, read in network byte order. */
  function FieldAt(bs: seq<Byte>, k: nat): Word
    requires 4 * k + 4 <= |bs|
  {
    FromNetworkBytes(bs[4 * k .. 4 * k + 4])
  }

  /** The wire image of a request: op, id, position, value, each big-endian. */
  function EncodeRequest(r: Request): (bs: seq<Byte>)
    ensures |bs| == RequestSize
    ensures FieldAt(bs, 0) == r.op && FieldAt(bs, 1) == r.id
    ensures FieldAt(bs, 2) == r.position && FieldAt(bs, 3) == r.value
  {
    var bs := NetworkBytes(r.op) + NetworkBytes(r.id) + NetworkBytes(r.position) + NetworkBytes(r.value);
    assert bs[0..4] == NetworkBytes(r.op);
    assert bs[4..8] == NetworkBytes(r.id);
    assert bs[8..12] == NetworkBytes(r.position);
    assert bs[12..16] == NetworkBytes(r.value);
    NetworkBytesRoundTrip(r.op);
    NetworkBytesRoundTrip(r.id);
    NetworkBytesRoundTrip(r.position);
    NetworkBytesRoundTrip(r.value);
    bs
  }

  /**
   * The request a datagram carries: a datagram shorter than a request is
   * refused; of a longer one the first sixteen bytes are read.
   */
  function DecodeRequest(bs: seq<Byte>): (r: Result<Request, DecodeError>)
    ensures r.Err? <==> |bs| < RequestSize
    ensures r.Err? ==> r.error == ShortRead(|bs|)
  {
    if |bs| < RequestSize then Err(ShortRead(|bs|))
    else Ok(Request(FieldAt(bs, 0), FieldAt(bs, 1), FieldAt(bs, 2), FieldAt(bs, 3)))
  }

  /** The wire image of a response: id, position, value, each big-endian. */
  function EncodeResponse(r: Response): (bs: seq<Byte>)
    ensures |bs| == ResponseSize
    ensures FieldAt(bs, 0) == r.id && FieldAt(bs, 1) == r.position && FieldAt(bs, 2) == r.value
  {
    var bs := NetworkBytes(r.id) + NetworkBytes(r.position) + NetworkBytes(r.value);
    assert bs[0..4] == NetworkBytes(r.id);
    assert bs[4..8] == NetworkBytes(r.position);
    assert bs[8..12] == NetworkBytes(r.value);
    NetworkBytesRoundTrip(r.id);
    NetworkBytesRoundTrip(r.position);
    NetworkBytesRoundTrip(r.value);
    bs
  }

  /**
   * The response a received datagram carries: fewer than twelve bytes is a
   * short read; otherwise the first twelve bytes are read.
   */
  function DecodeResponse(bs: seq<Byte>): (r: Result<Response, DecodeError>)
    ensures r.Err? <==> |bs| < ResponseSize
    ensures r.Err? ==> r.error == ShortRead(|bs|)
  {
    if |bs| < ResponseSize then Err(ShortRead(|bs|))
    else Ok(Response(FieldAt(bs, 0), FieldAt(bs, 1), FieldAt(bs, 2)))
  }

  /** Every request survives the wire, over the whole 32-bit range of each field. */
  lemma RequestRoundTrip(r: Request)
    ensures DecodeRequest(EncodeRequest(r)) == Ok(r)
  {
  }

  /** Every sixteen-byte datagram is the image of exactly the request it decodes to. */
  lemma RequestImageRoundTrip(bs: seq<Byte>)
    requires |bs| == RequestSize
    ensures DecodeRequest(bs).Ok? && EncodeRequest(DecodeRequest(bs).value) == bs
  {
    var r := DecodeRequest(bs).value;
    var image := EncodeRequest(r);
    forall k | 0 <= k < 4
      ensures image[4 * k .. 4 * k + 4] == bs[4 * k .. 4 * k + 4]
    {
      FromNetworkBytesRoundTrip(bs[4 * k .. 4 * k + 4]);
      FromNetworkBytesRoundTrip(image[4 * k .. 4 * k + 4]);
    }
    SameFields(image, bs, 4);
  }

  /** Every response survives the wire, over the whole 32-bit range of each field. */
  lemma ResponseRoundTrip(r: Response)
    ensures DecodeResponse(EncodeResponse(r)) == Ok(r)
  {
  }

  /**
   * Bytes after the twelfth do not change what a datagram decodes to, and a
   * twelve-byte datagram is the image of the response it decodes to.
   */
  lemma ResponseImageRoundTrip(bs: seq<Byte>, extra: seq<Byte>)
    requires |bs| == ResponseSize
    ensures DecodeResponse(bs + extra) == DecodeResponse(bs)
    ensures DecodeResponse(bs).Ok? && EncodeResponse(DecodeResponse(bs).value) == bs
  {
    var image := EncodeResponse(DecodeResponse(bs).value);
    forall k | 0 <= k < 3
      ensures image[4 * k .. 4 * k + 4] == bs[4 * k .. 4 * k + 4]
    {
      FromNetworkBytesRoundTrip(bs[4 * k .. 4 * k + 4]);
      FromNetworkBytesRoundTrip(image[4 * k .. 4 * k + 4]);
    }
    SameFields(image, bs, 3);
    forall k | 0 <= k < 3
      ensures (bs + extra)[4 * k .. 4 * k + 4] == bs[4 * k .. 4 * k + 4]
    {
    }
  }

  /** Two datagrams of n fields that agree field by field are equal. */
  lemma SameFields(a: seq<Byte>, b: seq<Byte>, n: nat)
    requires |a| == |b| == 4 * n
    requires forall k | 0 <= k < n :: a[4 * k .. 4 * k + 4] == b[4 * k .. 4 * k + 4]
    ensures a == b
  {
    forall i | 0 <= i < |a|
      ensures a[i] == b[i]
    {
      var k := i / 4;
      assert a[4 * k .. 4 * k + 4][i - 4 * k] == b[4 * k .. 4 * k + 4][i - 4 * k];
    }
  }
}
