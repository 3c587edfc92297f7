/**
 * The server side of the bus API: the pending-request tree and the two
 * paths that touch it, a get arriving from a client and a value arriving
 * from the device, and the reading of one message off the bus.
 *
 * What the server does outside its own state (set_option, get_option,
 * sending replies, freeing client lists, writing diagnostics) is recorded,
 * in order, in `trace`.
 */
module ApiServer {
  import opened ByteOrder
  import opened KeyOrder
  import opened PendingRegistry
  import opened DBusDispatch

  /** The value every set is acknowledged with. */
  const SetAck: Word := 0

  datatype Effect =
    | DeviceQuery(id: Word, position: Word)             // get_option(id, pos)
    | DeviceSet(id: Word, position: Word, value: Word)  // set_option(id, pos, value)
    | ReplyGet(msg: nat, conn: nat, value: Word)        // method return carrying the value
    | ReplySet(msg: nat, conn: nat, ack: Word)          // method return carrying the ack
    | ReplyIntrospection(msg: nat, conn: nat)           // method return carrying the description
    | Released(waiters: seq<Waiter>)                    // the tree's value-destroy frees a client list
    | Log(d: Diagnostic)

  /** The replies that answer `ws` with `value`, one per waiter, in list order. */
  function FanOut(ws: seq<Waiter>, value: Word): (r: seq<Effect>)
    ensures |r| == |ws|
    ensures forall i | 0 <= i < |r| :: r[i].ReplyGet? && r[i].value == value
  {
    if ws == [] then [] else [ReplyGet(ws[0].msg, ws[0].conn, value)] + FanOut(ws[1..], value)
  }

  /** The i-th reply goes to the i-th waiter, with the same value for all. */
  lemma {:induction false} FanOutAt(ws: seq<Waiter>, value: Word, i: nat)
    requires i < |ws|
    ensures |FanOut(ws, value)| == |ws|
    ensures FanOut(ws, value)[i] == ReplyGet(ws[i].msg, ws[i].conn, value)
  {
    if i > 0 {
      FanOutAt(ws[1..], value, i - 1);
    } else if |ws| > 1 {
      FanOutAt(ws[1..], value, 0);
    }
  }

  lemma {:induction false} FanOutAppend(a: seq<Waiter>, b: seq<Waiter>, value: Word)
    ensures FanOut(a + b, value) == FanOut(a, value) + FanOut(b, value)
  {
    if a != [] {
      assert (a + b)[1..] == a[1..] + b;
      FanOutAppend(a[1..], b, value);
    } else {
      assert a + b == b;
    }
  }

  function Logged(ds: seq<Diagnostic>): seq<Effect>
  {
    if ds == [] then [] else [Log(ds[0])] + Logged(ds[1..])
  }

  lemma {:induction false} LoggedAppend(a: seq<Diagnostic>, b: seq<Diagnostic>)
    ensures Logged(a + b) == Logged(a) + Logged(b)
  {
    if a != [] {
      assert (a + b)[1..] == a[1..] + b;
      LoggedAppend(a[1..], b);
    } else {
      assert a + b == b;
    }
  }

  class Server {
    /** GDIGI_KEY(pos, id): the packing of a parameter into a tree key. */
    const gdigiKey: (Word, Word) -> Word
    /** gdigi_dbus_conn, the server's bus connection. */
    const conn: nat
    /** request_dbus_parameter_tree */
    var pending: Pending
    var trace: seq<Effect>

    ghost predicate Valid()
      reads this
    {
      NoEmptyLists(pending)
    }

    /** The identity the tree gives the parameter (pos, id). */
    function KeyOf(pos: Word, id: Word): (t: nat)
      ensures t == MaskedId(gdigiKey(pos, id)) + MaskedPos(gdigiKey(pos, id))
      ensures t < 0x100_0000
    {
      TreeKeySplits(gdigiKey(pos, id));
      TreeKey(gdigiKey(pos, id))
    }

    /** gdigi_dbus_init, once connected: an empty tree. */
    constructor (gdigiKey: (Word, Word) -> Word, conn: nat)
      ensures Valid()
      ensures this.gdigiKey == gdigiKey && this.conn == conn
      ensures pending == map[] && trace == []
    {
      this.gdigiKey := gdigiKey;
      this.conn := conn;
      pending := map[];
      trace := [];
    }

    /** g_tree_steal: the entry leaves the tree and its list is not freed. */
    method TreeSteal(t: nat)
      modifies this
      ensures pending == old(pending) - {t} && trace == old(trace)
    {
      pending := pending - {t};
    }

    /** g_tree_insert: a list already stored under the key is freed and replaced. */
    method TreeInsert(t: nat, list: seq<Waiter>)
      modifies this
      ensures pending == old(pending)[t := list]
      ensures trace == old(trace) + (if t in old(pending) then [Released(old(pending)[t])] else [])
    {
      if t in pending {
        trace := trace + [Released(pending[t])];
      }
      pending := pending[t := list];
    }

    /** g_tree_remove: the entry leaves the tree and its list is freed. */
    method TreeRemove(t: nat)
      modifies this
      ensures pending == old(pending) - {t}
      ensures trace == old(trace) + (if t in old(pending) then [Released(old(pending)[t])] else [])
    {
      if t in pending {
        trace := trace + [Released(pending[t])];
      }
      pending := pending - {t};
    }

    /**
     * get_dbus_parameter_request: queues the caller behind everyone already
     * waiting for the same key, frees no list, and queries the device, even
     * when a query for the key is already outstanding.
     */
    method RegisterGet(pos: Word, id: Word, msg: nat)
      requires Valid()
      modifies this
      ensures Valid()
      ensures pending == WithWaiter(old(pending), KeyOf(pos, id), Waiter(pos, id, msg, conn))
      ensures trace == old(trace) + [DeviceQuery(id, pos)]
    {
      var req := Waiter(pos, id, msg, conn);
      var key := KeyOf(pos, id);
      var clientList := Lookup(pending, key);
      if clientList == [] {
        clientList := clientList + [req];
      } else {
        clientList := clientList + [req];
        TreeSteal(key);
      }
      TreeInsert(key, clientList);
      trace := trace + [DeviceQuery(id, pos)];
    }

    /**
     * gdigi_api_server_get_dbus_parameter_response: when clients wait for the
     * key, replies to each of them with `value` in list order, then removes
     * and frees the entry; when none do, does nothing.
     */
    method DeliverValue(pos: Word, id: Word, value: Word)
      requires Valid()
      modifies this
      ensures Valid()
      ensures pending == WithoutKey(old(pending), KeyOf(pos, id))
      ensures var list := Lookup(old(pending), KeyOf(pos, id));
              trace == old(trace) + (if list == [] then [] else FanOut(list, value) + [Released(list)])
    {
      var key := KeyOf(pos, id);
      var clientList := Lookup(pending, key);
      if clientList == [] {
        assert pending == pending - {key};
        return;
      }
      var i := 0;
      while i < |clientList|
        invariant 0 <= i <= |clientList|
        invariant pending == old(pending)
        invariant trace == old(trace) + FanOut(clientList[..i], value)
      {
        var req := clientList[i];
        assert clientList[..i + 1] == clientList[..i] + [req];
        FanOutAppend(clientList[..i], [req], value);
        trace := trace + [ReplyGet(req.msg, req.conn, value)];
        i := i + 1;
      }
      assert clientList[..i] == clientList;
      TreeRemove(key);
    }

    /** set_parameter_request: hands the new value to the device. */
    method SetParameterRequest(pos: Word, id: Word, value: Word)
      modifies this
      ensures pending == old(pending)
      ensures trace == old(trace) + [DeviceSet(id, pos, value)]
    {
      trace := trace + [DeviceSet(id, pos, value)];
    }

    /** gdigi_dbus_message_reply_set: acknowledges a set with the value 0. */
    method ReplySetAck(msg: nat)
      modifies this
      ensures pending == old(pending)
      ensures trace == old(trace) + [ReplySet(msg, conn, SetAck)]
    {
      var retval: Word := 0;
      trace := trace + [ReplySet(msg, conn, retval)];
    }

    method Diagnose(d: Diagnostic)
      modifies this
      ensures pending == old(pending) && trace == old(trace) + [Log(d)]
    {
      trace := trace + [Log(d)];
    }

    /**
     * gdigi_dbus_read: handles the message popped off the bus, if any, as
     * Decide says. A set is applied and acknowledged with 0; a get is queued
     * and its reply deferred; anything else changes no parameter.
     */
    method Read(msg: Option<Message>)
      requires Valid()
      modifies this
      ensures Valid()
      ensures Handled(Decide(msg), if msg.Some? then msg.value.serial else 0, old(pending), old(trace))
    {
      if msg.None? {
        return;
      }
      var m := msg.value;
      if IsMethodCall(m, ParameterInterface, GetMember) {
        ReadCall(m, false);
      } else if IsMethodCall(m, ParameterInterface, SetMember) {
        ReadCall(m, true);
      } else if IsMethodCall(m, IntrospectableInterface, IntrospectMember) {
        trace := trace + [ReplyIntrospection(m.serial, conn)];
      } else {
        Diagnose(UnknownMessage);
      }
    }

    /**
     * The state after the server acts on decision `d` for the message with
     * serial `serial`, from `pending0` and `trace0`.
     */
    ghost predicate Handled(d: Decision, serial: nat, pending0: Pending, trace0: seq<Effect>)
      reads this
    {
      match d.action
      case NoMessage =>
        pending == pending0 && trace == trace0
      case AnswerIntrospection =>
        pending == pending0 && trace == trace0 + [ReplyIntrospection(serial, conn)]
      case Drop =>
        pending == pending0 && trace == trace0 + Logged(d.diagnostics)
      case ApplySet(p, i, v) =>
        pending == pending0 &&
        trace == trace0 + Logged(d.diagnostics) + [DeviceSet(i, p, v), ReplySet(serial, conn, SetAck)]
      case QueueGet(p, i) =>
        pending == WithWaiter(pending0, KeyOf(p, i), Waiter(p, i, serial, conn)) &&
        trace == trace0 + Logged(d.diagnostics) + [DeviceQuery(i, p)]
    }

    /** The argument handling of gdigi_dbus_read for a get or a set call. */
    method ReadCall(m: Message, isSet: bool)
      requires Valid()
      modifies this
      ensures Valid()
      ensures Handled(DecideCall(m, isSet), m.serial, old(pending), old(trace))
    {
      if |m.args| == 0 {
        Diagnose(NoArgs);
        assert DecideCall(m, isSet) == Decision([NoArgs], Drop);
        return;
      }
      CheckArg(m.args[0], FirstArgNotUInt32);
      ghost var logged := TypeCheck(m.args[0], FirstArgNotUInt32);
      var position := m.args[0].bits;
      if |m.args| < 2 {
        Diagnose(TooFewArgs);
        LoggedAppend(logged, [TooFewArgs]);
        assert DecideCall(m, isSet) == Decision(logged + [TooFewArgs], Drop);
        return;
      }
      CheckArg(m.args[1], SecondArgNotUInt32);
      LoggedAppend(logged, TypeCheck(m.args[1], SecondArgNotUInt32));
      logged := logged + TypeCheck(m.args[1], SecondArgNotUInt32);
      var id := m.args[1].bits;
      if isSet {
        ReadSetValue(m, position, id, logged, old(trace));
      } else {
        assert DecideCall(m, isSet) == Decision(logged, QueueGet(position, id));
        RegisterGet(position, id, m.serial);
      }
    }

    /** Reports an argument that is not a uint32; the caller reads it all the same. */
    method CheckArg(a: Arg, d: Diagnostic)
      modifies this
      ensures pending == old(pending) && trace == old(trace) + Logged(TypeCheck(a, d))
    {
      if a.typeCode != UInt32Type {
        Diagnose(d);
      }
    }

    /** The rest of a set call, once its position and id are read. */
    method ReadSetValue(m: Message, position: Word, id: Word, ghost logged: seq<Diagnostic>, ghost trace0: seq<Effect>)
      requires Valid()
      requires |m.args| >= 2 && position == m.args[0].bits && id == m.args[1].bits
      requires logged == TypeCheck(m.args[0], FirstArgNotUInt32) + TypeCheck(m.args[1], SecondArgNotUInt32)
      requires trace == trace0 + Logged(logged)
      modifies this
      ensures Valid()
      ensures Handled(DecideCall(m, true), m.serial, old(pending), trace0)
    {
      if |m.args| < 3 {
        Diagnose(TooFewArgs);
        LoggedAppend(logged, [TooFewArgs]);
        assert DecideCall(m, true) == Decision(logged + [TooFewArgs], Drop);
        return;
      }
      CheckArg(m.args[2], ThirdArgNotUInt32);
      LoggedAppend(logged, TypeCheck(m.args[2], ThirdArgNotUInt32));
      var value := m.args[2].bits;
      assert DecideCall(m, true) == Decision(logged + TypeCheck(m.args[2], ThirdArgNotUInt32), ApplySet(position, id, value));
      SetParameterRequest(position, id, value);
      ReplySetAck(m.serial);
    }
  }

  /**
   * Two clients ask for (position 2, id 5) before the device answers; one
   * delivery of 42 answers both, in the order they asked, and clears the
   * entry, so a second delivery answers no one. The packing of the key is any
   * function of (position, id).
   */
  method TwoClientsOneDelivery(gdigiKey: (Word, Word) -> Word, conn: nat) returns (effects: seq<Effect>, left: seq<Waiter>)
    ensures effects == [DeviceQuery(5, 2), DeviceQuery(5, 2), ReplyGet(10, conn, 42), ReplyGet(11, conn, 42),
                        Released([Waiter(2, 5, 10, conn), Waiter(2, 5, 11, conn)])]
    ensures left == []
  {
    var server := new Server(gdigiKey, conn);
    var t := server.KeyOf(2, 5);
    var queued := [Waiter(2, 5, 10, conn), Waiter(2, 5, 11, conn)];
    GetCallIsQueued(2, 5, 10);
    server.Read(Some(GetCall(2, 5, 10)));
    assert Lookup(server.pending, t) == [Waiter(2, 5, 10, conn)] && server.pending.Keys == {t};
    assert server.trace == [DeviceQuery(5, 2)];
    GetCallIsQueued(2, 5, 11);
    server.Read(Some(GetCall(2, 5, 11)));
    assert Lookup(server.pending, t) == [Waiter(2, 5, 10, conn)] + [Waiter(2, 5, 11, conn)];
    assert Lookup(server.pending, t) == queued;
    assert server.trace == [DeviceQuery(5, 2), DeviceQuery(5, 2)];
    assert queued[1..] == [Waiter(2, 5, 11, conn)] && queued[1..][1..] == [];
    assert FanOut(queued[1..], 42) == [ReplyGet(11, conn, 42)];
    assert FanOut(queued, 42) == [ReplyGet(10, conn, 42), ReplyGet(11, conn, 42)];
    server.DeliverValue(2, 5, 42);
    server.DeliverValue(2, 5, 42);
    effects := server.trace;
    left := Lookup(server.pending, t);
  }
}
