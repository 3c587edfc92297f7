/**
 * The client side of the datagram API: the request and response structures
 * as they lie in the client's memory, sending a request (each field turned
 * to network byte order in place), receiving a response with a five-second
 * wait, and the two calls built on them, get and set.
 *
 * The operating system is a parameter: what sendto returns, and what
 * select and recvfrom see (a `Wait`). The connection state the source keeps
 * in statics is a `Client` object; the datagrams handed to sendto are its
 * `sent` log.
 */
module ApiClient {
  import opened ByteOrder
  import opened ApiProtocol

  /** select waits at most five seconds for a response. */
  const ReceiveTimeoutMs: nat := 5000

  /** A gdigi_api_request_t in the client's memory. */
  class RequestStruct {
    var op: Word
    var id: Word
    var position: Word
    var value: Word

    constructor (op: Word, id: Word, position: Word, value: Word)
      ensures this.op == op && this.id == id && this.position == position && this.value == value
    {
      this.op, this.id, this.position, this.value := op, id, position, value;
    }

    function Fields(): Request
      reads this
    {
      Request(op, id, position, value)
    }

    /** The sixteen bytes of the structure as they lie in memory. */
    function Image(e: Endianness): (bs: seq<Byte>)
      reads this
      ensures |bs| == RequestSize
    {
      HostBytes(e, op) + HostBytes(e, id) + HostBytes(e, position) + HostBytes(e, value)
    }
  }

  /** A gdigi_api_response_t in the client's memory. */
  class ResponseStruct {
    var id: Word
    var position: Word
    var value: Word

    /** A response structure cleared with memset. */
    constructor Zeroed()
      ensures id == 0 && position == 0 && value == 0
    {
      id, position, value := 0, 0, 0;
    }

    function Fields(): Response
      reads this
    {
      Response(id, position, value)
    }

    /** The twelve bytes of the structure as they lie in memory. */
    function Image(e: Endianness): (bs: seq<Byte>)
      reads this
      ensures |bs| == ResponseSize
    {
      HostBytes(e, id) + HostBytes(e, position) + HostBytes(e, value)
    }

    /** recvfrom copies the received bytes over the front of the structure. */
    method Store(e: Endianness, bytes: seq<Byte>)
      requires |bytes| <= ResponseSize
      modifies this
      ensures Image(e) == bytes + old(Image(e))[|bytes|..]
      ensures id == FromHostBytes(e, Image(e)[0..4])
      ensures position == FromHostBytes(e, Image(e)[4..8])
      ensures value == FromHostBytes(e, Image(e)[8..12])
    {
      var memory := bytes + Image(e)[|bytes|..];
      var m0, m1, m2 := memory[0..4], memory[4..8], memory[8..12];
      assert memory == m0 + m1 + m2;
      id := FromHostBytes(e, m0);
      position := FromHostBytes(e, m1);
      value := FromHostBytes(e, m2);
      HostBytesRoundTrip(e, m0);
      HostBytesRoundTrip(e, m1);
      HostBytesRoundTrip(e, m2);
    }
  }

  /** The `guint *value` a get writes its result through. */
  class ValueCell {
    var v: Word

    constructor (v: Word)
      ensures this.v == v
    {
      this.v := v;
    }
  }

  /** What recvfrom does once the socket is readable. */
  datatype Recv = RecvFails | Datagram(bytes: seq<Byte>)

  /** What the client's socket sees while it waits in select. */
  datatype Wait =
    | SelectFails                      // select itself fails
    | Silent                           // nothing ever arrives
    | ArrivesAfter(ms: nat, recv: Recv)  // a datagram arrives after `ms` milliseconds

  datatype IoError = SendFailed | SelectFailed | TimedOut | RecvFailed | ShortDatagram(got: nat)

  /** What select returns: -1 on error, 0 on timeout, 1 when the socket is readable. */
  function SelectRc(w: Wait): (rc: int)
    ensures rc == 1 <==> w.ArrivesAfter? && w.ms < ReceiveTimeoutMs
    ensures rc == -1 <==> w.SelectFails?
  {
    match w
    case SelectFails => -1
    case Silent => 0
    case ArrivesAfter(ms, _) => if ms < ReceiveTimeoutMs then 1 else 0
  }

  /** recvfrom keeps no more of a datagram than the response structure holds. */
  function Copied(bytes: seq<Byte>): (got: seq<Byte>)
    ensures |got| <= ResponseSize && got <= bytes
    ensures |got| == ResponseSize <==> |bytes| >= ResponseSize
  {
    if |bytes| <= ResponseSize then bytes else bytes[..ResponseSize]
  }

  /** The outcome of gdigi_receive for what the socket sees. */
  function ReceiveResult(w: Wait): (r: Result<Response, IoError>)
    ensures r.Ok? <==> SelectRc(w) == 1 && w.recv.Datagram? && |w.recv.bytes| >= ResponseSize
    ensures r.Ok? ==> EncodeResponse(r.value) == w.recv.bytes[..ResponseSize]
    ensures SelectRc(w) == 0 ==> r == Err(TimedOut)
    ensures SelectRc(w) == 1 && w.recv.Datagram? && |w.recv.bytes| < ResponseSize
            ==> r == Err(ShortDatagram(|w.recv.bytes|))
  {
    var rc := SelectRc(w);
    if rc < 0 then Err(SelectFailed)
    else if rc == 0 then Err(TimedOut)
    else
      match w.recv
      case RecvFails => Err(RecvFailed)
      case Datagram(bytes) =>
        match DecodeResponse(Copied(bytes))
        case Err(ShortRead(n)) => Err(ShortDatagram(n))
        case Ok(rsp) =>
          ResponseImageRoundTrip(Copied(bytes), []);
          Ok(rsp)
  }

  /** The outcome of gdigi_get_parameter: the value of the response, or why none. */
  function GetResult(sendRc: int, w: Wait): (r: Result<Word, IoError>)
    ensures sendRc < 0 ==> r == Err(SendFailed)
    ensures r.Ok? <==> sendRc >= 0 && ReceiveResult(w).Ok?
    ensures r.Ok? ==> r.value == ReceiveResult(w).value.value
    ensures sendRc >= 0 && ReceiveResult(w).Err? ==> r == Err(ReceiveResult(w).error)
  {
    if sendRc < 0 then Err(SendFailed)
    else
      match ReceiveResult(w)
      case Ok(rsp) => Ok(rsp.value)
      case Err(e) => Err(e)
  }

  /**
   * A get whose request is sent and whose response arrives within the
   * timeout yields the response's value, whatever parameter the response
   * names and whatever follows its twelfth byte.
   */
  lemma GetYieldsResponseValue(sendRc: int, ms: nat, rsp: Response, extra: seq<Byte>)
    requires sendRc >= 0 && ms < ReceiveTimeoutMs
    ensures GetResult(sendRc, ArrivesAfter(ms, Datagram(EncodeResponse(rsp) + extra))) == Ok(rsp.value)
  {
    var bytes := EncodeResponse(rsp) + extra;
    assert Copied(bytes) == EncodeResponse(rsp);
    ResponseRoundTrip(rsp);
  }

  /** A get with no response within five seconds, or none at all, times out. */
  lemma GetTimesOut(sendRc: int, w: Wait)
    requires sendRc >= 0
    requires w.Silent? || (w.ArrivesAfter? && w.ms >= ReceiveTimeoutMs)
    ensures GetResult(sendRc, w) == Err(TimedOut)
  {
  }

  /** A get fails exactly when sending, select, recvfrom or the length check fails. */
  lemma GetFailureCases(sendRc: int, w: Wait)
    ensures GetResult(sendRc, w).Err? <==>
      sendRc < 0 || SelectRc(w) != 1 || w.recv.RecvFails? || |w.recv.bytes| < ResponseSize
  {
  }

  /** The connection state of a client: its byte order and what it has sent. */
  class Client {
    const host: Endianness
    var sent: seq<seq<Byte>>

    constructor (host: Endianness)
      ensures this.host == host && sent == []
    {
      this.host := host;
      sent := [];
    }

    /**
     * gdigi_send: converts the four fields of `req` to network byte order in
     * place and hands the structure to sendto, whose result it returns.
     */
    method Send(req: RequestStruct, sendRc: int) returns (rc: int)
      modifies this, req
      ensures req.op == Htonl(host, old(req.op)) && req.id == Htonl(host, old(req.id))
      ensures req.position == Htonl(host, old(req.position)) && req.value == Htonl(host, old(req.value))
      ensures sent == old(sent) + [EncodeRequest(old(req.Fields()))]
      ensures rc == sendRc
    {
      ghost var original := req.Fields();
      req.op := Htonl(host, req.op);
      req.id := Htonl(host, req.id);
      req.position := Htonl(host, req.position);
      req.value := Htonl(host, req.value);
      HtonlStoresNetworkOrder(host, original.op);
      HtonlStoresNetworkOrder(host, original.id);
      HtonlStoresNetworkOrder(host, original.position);
      HtonlStoresNetworkOrder(host, original.value);
      sent := sent + [req.Image(host)];
      rc := sendRc;
    }

    /**
     * gdigi_receive: waits for a datagram, copies it into `rsp`, refuses a
     * short one, and converts the three fields from network byte order in place.
     */
    method Receive(rsp: ResponseStruct, w: Wait) returns (rc: int)
      modifies rsp
      ensures rc == (if ReceiveResult(w).Ok? then 0 else -1)
      ensures ReceiveResult(w).Ok? ==> rsp.Fields() == ReceiveResult(w).value
      ensures SelectRc(w) != 1 || w.recv.RecvFails? ==> rsp.Fields() == old(rsp.Fields())
      ensures SelectRc(w) == 1 && w.recv.Datagram? && |w.recv.bytes| < ResponseSize
              ==> rsp.Image(host) == w.recv.bytes + old(rsp.Image(host))[|w.recv.bytes|..]
    {
      var ready := SelectRc(w);
      if ready < 0 {
        return -1;
      } else if ready == 0 {
        return -1;
      }
      match w.recv
      case RecvFails =>
        return -1;
      case Datagram(bytes) =>
        var got := Copied(bytes);
        rsp.Store(host, got);
        if |got| < ResponseSize {
          return -1;
        }
        assert rsp.Image(host) == got;
        NtohlReadsNetworkOrder(host, got[0..4]);
        NtohlReadsNetworkOrder(host, got[4..8]);
        NtohlReadsNetworkOrder(host, got[8..12]);
        rsp.id := Ntohl(host, rsp.id);
        rsp.position := Ntohl(host, rsp.position);
        rsp.value := Ntohl(host, rsp.value);
        return 0;
    }

    /**
     * gdigi_get_parameter: sends a get for (id, pos) with value 0 and, if a
     * response arrives, stores its value through `value` and returns 0;
     * otherwise returns -1 and leaves `value` alone.
     */
    method GetParameter(id: Word, pos: Word, value: ValueCell, sendRc: int, w: Wait) returns (rc: int)
      modifies this, value
      ensures sent == old(sent) + [EncodeRequest(Request(GetParameterOp, id, pos, 0))]
      ensures rc == (if GetResult(sendRc, w).Ok? then 0 else -1)
      ensures value.v == (if GetResult(sendRc, w).Ok? then GetResult(sendRc, w).value else old(value.v))
    {
      var req := new RequestStruct(GetParameterOp, id, pos, 0);
      var sendRes := Send(req, sendRc);
      if sendRes < 0 {
        return -1;
      }
      var rsp := new ResponseStruct.Zeroed();
      var recvRes := Receive(rsp, w);
      if recvRes < 0 {
        return -1;
      }
      value.v := rsp.value;
      return 0;
    }

    /**
     * gdigi_set_parameter: sends a set for (id, position) carrying `value`
     * and returns what sending returned; no reply is awaited.
     */
    method SetParameter(id: Word, position: Word, value: Word, sendRc: int) returns (rc: int)
      modifies this
      ensures sent == old(sent) + [EncodeRequest(Request(SetParameterOp, id, position, value))]
      ensures rc == sendRc
    {
      var req := new RequestStruct(SetParameterOp, id, position, value);
      rc := Send(req, sendRc);
    }
  }
}
