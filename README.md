# gdigi parameter API: a verified model

gdigi controls a guitar effects processor. It lets other processes read
and write device parameters, each named by a (position, id) pair. This
project models two halves of that API in Dafny:

- **The server** (`gdigi_api_server.c`). It keeps a tree of pending "get"
  requests, keyed by the packed (position, id) key and ordered by
  `id_position_tree_compare`. Each get queues its caller on the key's list
  and queries the device. When the device reports a value, every queued
  caller is answered in list order and the entry is removed.
  `gdigi_dbus_read` decides what each bus message is: get, set,
  introspection, unknown, or a call with too few arguments.
- **The datagram client** (`Gdigi/gdigi_api.c`, `Gdigi/gdigi_api.h`). A
  request is four 32-bit fields (op, id, position, value), 16 bytes. A
  response is three (id, position, value), 12 bytes. Every field is in
  network byte order. Op code 1 is GET and 2 is SET
  (`ApiProtocol.GetParameterOp`, `ApiProtocol.SetParameterOp`).

Modules, one per concern:

- `ByteOrder` (`byte_order.dfy`): bytes, 32-bit words, and `g_htonl`/`g_ntohl`
  for a host of either byte order.
- `ApiProtocol` (`api_protocol.dfy`): the op codes, the two message layouts,
  and their wire images.
- `ApiClient` (`api_client.dfy`): the request and response structures in
  the client's memory, and `gdigi_send`, `gdigi_receive`,
  `gdigi_get_parameter` and `gdigi_set_parameter` as methods of a `Client`
  object.
- `KeyOrder` (`key_order.dfy`): the tree comparator.
- `PendingRegistry` (`pending_registry.dfy`): the tree's contents as a map
  value, and what any run of gets and deliveries leaves in it.
- `DBusDispatch` (`dbus_dispatch.dfy`): what `gdigi_dbus_read` does with a
  message, as a pure decision.
- `ApiServer` (`api_server.dfy`): the server as a class. It updates the tree
  in place and records its outside effects in a trace.

Outside effects become parameters or trace events:

- The operating system is a parameter of the client methods: what `sendto`
  returns, and what `select` and `recvfrom` see (`ApiClient.Wait`).
- The server records `get_option`, `set_option`, every reply it attempts,
  every freed client list, and every diagnostic line it writes while
  reading a message, as `ApiServer.Effect` values, in order. A reply event
  stands for the attempt to send it; whether the send succeeds is not
  modelled (see "## Left out").
- A message that names no interface matches any interface, as
  `dbus_message_is_method_call` treats it (`DBusDispatch.IsMethodCall`).
  So a `get`, `set` or `Introspect` call with no interface is handled like
  one that names the expected interface.
- `GDIGI_KEY` is not part of this model. The server takes the packing of
  (position, id) into a key as a constant function. Every property holds
  for any packing.
- The GTree is keyed by what the comparator reads: bits 0..23 of the key
  (`KeyOrder.TreeKey`). `KeyOrder.CompareOrdersTreeKeys` proves that the
  comparator orders keys exactly as those bits do. So a `map` keyed by
  `TreeKey` behaves as the tree does.
- GLib's tree operations are modelled with their freeing behaviour (see
  `ApiServer.Server.TreeInsert` and the next two rows). `g_tree_insert`
  frees a value it replaces. `g_tree_remove` frees the value it removes.
  `g_tree_steal` frees nothing. This is how the model shows that queuing a
  second waiter frees no list.

Where the intended behaviour and the code differ, the model follows the code:

- The code queries the device on every get, even while a query for the
  same key is outstanding (`gdigi_api_server.c:142`). A one-query-per-pending-key
  policy, which the tree of waiting clients suggests, would query only for
  the first waiter. `ApiServer.Server.RegisterGet` states that a
  `DeviceQuery` is always issued.
- The client accepts whatever response arrives first. It does not check
  that the response's id and position match the request
  (`Gdigi/gdigi_api.c:174-182`). `ApiClient.GetYieldsResponseValue` holds
  for a response naming any parameter.
- The comment on `gdigi_receive` says it times out in one second. The code
  waits five (`struct timeval ts = {5, 0}`), and so does the model
  (`ApiClient.ReceiveTimeoutMs`).
- A datagram server would decode requests and reject an unknown operation
  code. That server is not part of this model.
  `ApiProtocol.DecodeRequest` is only the inverse of `EncodeRequest`, used
  to state the round trip.
- Only the datagram client is modelled; the bus client is a separate
  wrapper (see "## Left out"). The datagram client sends a set and does
  not wait for a reply.

## Model

| member | source | states |
|---|---|---|
| `KeyOrder.CompareOrdersTreeKeys` | gdigi_api_server.c:45-61 | the comparator is negative, zero or positive exactly when the key's bits 0..23 (masked id above masked position) are less, equal or greater: id byte first, then position |
| `KeyOrder.CompareZeroIffFieldsEqual` | gdigi_api_server.c:49-59 | the comparator returns 0 exactly when both the masked ids and the masked positions are equal |
| `KeyOrder.CompareIgnoresTopByte` | gdigi_api_server.c:49-56 | two keys are the same to the tree exactly when their low 24 bits agree; the top byte is ignored |
| `KeyOrder.CompareAntisymmetric` | gdigi_api_server.c:52-60 | swapping the arguments negates the result |
| `KeyOrder.CompareTotalPreorder` | gdigi_api_server.c:45-61 | the comparator is reflexive, total and transitive, and its zero is transitive: a total preorder, usable as a tree order |
| `KeyOrder.TreeKeySplits` | gdigi_api_server.c:49-56 | the tree identity is the masked id plus the masked position, and the masked id is a multiple of 0x10000 no larger than 0xFF0000 |
| `PendingRegistry.WithWaiter` | gdigi_api_server.c:133-140 | after a get, the key's list is the old list with the new waiter at the end, every other key's list is unchanged, and no list is empty |
| `PendingRegistry.WithoutKey` | gdigi_api_server.c:404 | after a delivery, the key has no entry, every other key's list is unchanged, and no list is empty |
| `PendingRegistry.TwoWaitersThenDelivery` | gdigi_api_server.c:133-140 | two gets for one key queue both waiters in arrival order behind any earlier ones, and a delivery then leaves nothing for the key |
| `PendingRegistry.RunIsGetsSinceLastDelivery` | gdigi_api_server.c:29-36 | starting from an empty tree, after any sequence of gets and deliveries, a key's list is exactly the waiters of the gets for it since its last delivery, in arrival order |
| `PendingRegistry.RunHasNoEmptyLists` | gdigi_api_server.c:133-140 | no sequence of gets and deliveries leaves an empty (NULL) list stored in the tree |
| `PendingRegistry.DeliveryAnswersGetsSinceLast` | gdigi_api_server.c:391-405 | a delivery answers exactly the gets for its key since the previous delivery for that key, in order; afterwards the key has no waiters and a second delivery answers no one |
| `PendingRegistry.OtherKeysIndependent` | gdigi_api_server.c:132-140 | a get or delivery for one key leaves the list of every key the comparator tells apart from it unchanged |
| `PendingRegistry.LastDeliveryEnd` | gdigi_api_server.c:398-404 | the index after the last delivery for a key; no delivery for that key lies beyond it |
| `ApiServer.FanOut` | gdigi_api_server.c:403 | the replies to a client list are one per waiter, each a get reply carrying the delivered value |
| `ApiServer.FanOutAt` | gdigi_api_server.c:375-381 | the fan-out sends one reply per waiter, the i-th to the i-th waiter's message and connection, each carrying the delivered value |
| `ApiServer.FanOutAppend` | gdigi_api_server.c:403 | replying to a list in order is replying to its first part and then to its rest |
| `ApiServer.Server.KeyOf` | gdigi_api_server.c:132 | the tree identity of (pos, id) is the masked id plus the masked position of its packed key, what the comparator reads, and is below 2^24 |
| `ApiServer.Server.Diagnose` | gdigi_api_server.c:323-354 | writing a diagnostic line appends exactly that line to the trace and leaves the tree alone |
| `ApiServer.Server.constructor` | gdigi_api_server.c:182-186 | the server starts with an empty tree and an empty trace |
| `ApiServer.Server.TreeSteal` | gdigi_api_server.c:138 | stealing removes the entry and frees nothing |
| `ApiServer.Server.TreeInsert` | gdigi_api_server.c:140 | inserting stores the list; a list already stored under the key would be freed |
| `ApiServer.Server.TreeRemove` | gdigi_api_server.c:404 | removing drops the entry and frees its list |
| `ApiServer.Server.RegisterGet` | gdigi_api_server.c:115-143 | the new waiter is appended to the key's list, earlier waiters kept in order; no list is freed, because of the steal; exactly one device query is issued, whether or not an entry existed |
| `ApiServer.Server.DeliverValue` | gdigi_api_server.c:391-405 | with no entry, nothing changes and nothing is sent; otherwise every waiter gets one reply with the value, in list order, then the entry is removed and its list freed exactly once |
| `ApiServer.Server.SetParameterRequest` | gdigi_api_server.c:88-94 | a set hands (id, position, value) to the device and leaves the tree alone |
| `ApiServer.Server.ReplySetAck` | gdigi_api_server.c:224-244 | a set is acknowledged with the value 0 |
| `ApiServer.Server.Read` | gdigi_api_server.c:298-367 | handles a message as `Decide` says: no message changes nothing; introspection is answered; unknown or short calls only log; a set is applied and acknowledged with 0; a get is queued, the device is queried, and no reply is sent yet |
| `ApiServer.Server.ReadCall` | gdigi_api_server.c:327-366 | the arguments of a get or set call are read and checked as `DecideCall` says, then the set is applied or the get queued |
| `ApiServer.Server.CheckArg` | gdigi_api_server.c:332-334 | an argument that is not a uint32 is reported, and processing goes on |
| `ApiServer.Server.ReadSetValue` | gdigi_api_server.c:346-362 | a set lacking its third argument is dropped with a complaint; otherwise it is applied with that value and acknowledged |
| `ApiServer.TwoClientsOneDelivery` | gdigi_api_server.c:391-405 | two clients that ask for (2, 5) before the device answers both receive 42, in the order they asked, from one delivery; the entry is then empty and a second delivery sends nothing |
| `DBusDispatch.Decide` | gdigi_api_server.c:298-367 | a set is applied exactly for a set call with at least three arguments, and a get is queued exactly for a get call with at least two, each with its arguments in the order pos, id, val; introspection is answered exactly for Introspect calls; whatever is dropped ends with an unknown-message, no-args or too-few-args complaint, and no earlier complaint is one of those; the action never depends on the arguments' type codes |
| `DBusDispatch.DecideFatalComplaints` | gdigi_api_server.c:314-351 | "Unknown message" is logged exactly for a message that is none of get, set and Introspect; "no args" exactly for a get or set without arguments; "too few args" exactly for a get or set with one argument or a set with two |
| `DBusDispatch.DecideTypeChecks` | gdigi_api_server.c:332-356 | a first- or second-argument complaint appears exactly when a get or set has that argument and it is not a uint32; a third-argument complaint exactly when a set has a third argument that is not a uint32 |
| `DBusDispatch.DecideCallTypeChecks` | gdigi_api_server.c:332-356 | within a get or set call, each argument that is read is complained about exactly when its type code is not uint32, and the third is read only for a set |
| `DBusDispatch.TypeCheck` | gdigi_api_server.c:332-334 | an argument gives no complaint exactly when it is a uint32, and otherwise only the complaint for its place |
| `DBusDispatch.IsMethodCall` | gdigi_api_server.c:314-318 | a match is a method call with the given member whose interface, when present, is the given one; a method call with that member and no interface matches |
| `DBusDispatch.GetWithoutInterfaceIsQueued` | gdigi_api_server.c:314-315 | a get call that names no interface is queued for its (pos, id), with no complaint |
| `DBusDispatch.DecideCall` | gdigi_api_server.c:327-366 | for a get or set call, the result is a queued get iff it is a get with at least two arguments, an applied set iff it is a set with at least three (extra arguments are ignored), and otherwise a drop |
| `DBusDispatch.GetCallIsQueued` | gdigi_api_server.c:250-254 | a get call with uint32 pos and id, as the interface describes, is queued for that (pos, id) with no complaint |
| `DBusDispatch.SetCallIsApplied` | gdigi_api_server.c:255-259 | a set call with uint32 pos, id and val, as the interface describes, is applied with those values and no complaint |
| `DBusDispatch.OneArgumentIsTooFew` | gdigi_api_server.c:336-340 | a get or set with one argument is dropped with "too few args" |
| `DBusDispatch.OtherMethodsAreUnknown` | gdigi_api_server.c:322-325 | any other method of the parameter interface is an unknown message and is dropped |
| `ByteOrder.Htonl` | Gdigi/gdigi_api.c:105-108 | on a big-endian host the word is unchanged; on a little-endian one its four bytes are reversed |
| `ByteOrder.Ntohl` | Gdigi/gdigi_api.c:150-152 | the same byte reversal on a little-endian host, and the identity on a big-endian one |
| `ByteOrder.HtonlStoresNetworkOrder` | Gdigi/gdigi_api.c:105-108 | after `g_htonl`, the word lies in the host's memory in network byte order, on a little- or big-endian host |
| `ByteOrder.NtohlReadsNetworkOrder` | Gdigi/gdigi_api.c:150-152 | four received bytes read into host memory and passed through `g_ntohl` give the word they denote in network order |
| `ByteOrder.NtohlUndoesHtonl` | Gdigi/gdigi_api.c:105-108 | `g_ntohl` undoes `g_htonl` on either host |
| `ByteOrder.NetworkBytesInjective` | Gdigi/gdigi_api.h:41-44 | distinct words have distinct network-order images |
| `ApiProtocol.EncodeRequest` | Gdigi/gdigi_api.h:45-50 | a request is 16 bytes whose four big-endian 32-bit fields are op, id, position and value, in that order |
| `ApiProtocol.EncodeResponse` | Gdigi/gdigi_api.h:52-57 | a response is 12 bytes whose three big-endian fields are id, position and value, in that order |
| `ApiProtocol.DecodeRequest` | Gdigi/gdigi_api.h:45-50 | fewer than 16 bytes is a short read carrying the length; otherwise a request is decoded |
| `ApiProtocol.DecodeResponse` | Gdigi/gdigi_api.c:144-152 | fewer than 12 bytes is a short read carrying the length; otherwise a response is decoded |
| `ApiProtocol.RequestRoundTrip` | Gdigi/gdigi_api.h:41-50 | decoding an encoded request gives it back, for every 32-bit value of each field |
| `ApiProtocol.RequestImageRoundTrip` | Gdigi/gdigi_api.h:45-50 | every 16-byte datagram is the encoding of the request it decodes to |
| `ApiProtocol.ResponseRoundTrip` | Gdigi/gdigi_api.h:52-57 | decoding an encoded response gives it back, for every 32-bit value of each field |
| `ApiProtocol.ResponseImageRoundTrip` | Gdigi/gdigi_api.c:139-152 | bytes after the twelfth do not change what is decoded, and every 12-byte datagram is the encoding of its response |
| `ApiClient.ResponseStruct.Store` | Gdigi/gdigi_api.c:139-140 | `recvfrom` overwrites the front of the response structure's memory with the received bytes and leaves the rest |
| `ApiClient.SelectRc` | Gdigi/gdigi_api.c:126-137 | `select` reports readiness exactly when a datagram arrives within 5000 ms, and -1 exactly when it fails |
| `ApiClient.Copied` | Gdigi/gdigi_api.c:139-140 | `recvfrom` keeps a prefix of the datagram, at most 12 bytes, and all 12 exactly when the datagram has at least 12 |
| `ApiClient.ReceiveResult` | Gdigi/gdigi_api.c:121-155 | a receive succeeds exactly when a datagram of at least 12 bytes arrives within five seconds, and its response is the one whose encoding is the first 12 bytes; silence means a timeout; a shorter datagram is a short read |
| `ApiClient.GetResult` | Gdigi/gdigi_api.c:168-184 | a failed send is a send failure; otherwise a get yields the value of the received response exactly when the receive succeeds, and the receive's error when it does not |
| `ApiClient.GetYieldsResponseValue` | Gdigi/gdigi_api.c:157-185 | when the request is sent and a response arrives within the timeout, a get yields the response's value |
| `ApiClient.GetTimesOut` | Gdigi/gdigi_api.c:126-136 | when nothing arrives within five seconds, a get fails with a timeout |
| `ApiClient.GetFailureCases` | Gdigi/gdigi_api.c:168-177 | a get fails exactly when sending, `select`, `recvfrom` or the length check fails |
| `ApiClient.Client.Send` | Gdigi/gdigi_api.c:100-114 | the four fields are converted to network order in place, the datagram sent is the encoding of the original request, and the result is what `sendto` returned |
| `ApiClient.Client.Receive` | Gdigi/gdigi_api.c:121-155 | returns 0 exactly when `ReceiveResult` succeeds, and then the structure holds the decoded response; on a select or receive failure the structure is untouched; on a short read only its front is overwritten |
| `ApiClient.Client.GetParameter` | Gdigi/gdigi_api.c:157-185 | sends GET with the given id and position and value 0; returns 0 and stores the response's value on success, or returns -1 and leaves the value alone |
| `ApiClient.Client.SetParameter` | Gdigi/gdigi_api.c:187-197 | sends SET with the given id, position and value, and returns exactly what sending returned, with no reply awaited |

## Left out

- Bus plumbing is not modelled: connecting, requesting the name,
  building and iterating messages, send and flush, and unref. A message is
  the abstract `DBusDispatch.Message`. A reply is a trace event naming the
  message's serial and the connection.
- The text of the introspection description is not modelled. Its reply is
  one `ReplyIntrospection` event.
- The GUI refresh after a set (`GDK_THREADS_ENTER`,
  `apply_setting_param_to_gui`) is not modelled. It is GUI locking and
  drawing, outside this core.
- `set_option` and `get_option` are device I/O. They are the
  `DeviceSet` and `DeviceQuery` events.
- `GDIGI_KEY` is not part of this model. It is a constant function of the
  server.
- Socket setup and teardown (`gdigi_init`, `gdigi_fini`: `socket`,
  `mkstemp`, `bind`, `unlink`) are operating-system I/O and are not
  modelled.
- DBusDispatch.Decide: an argument that is not a uint32 is read as an
  arbitrary word (`DBusDispatch.Arg.bits`). The source reads it with
  `dbus_message_iter_get_basic` into a 4-byte `dbus_uint32_t` all the same.
  A narrower argument writes only part of the variable and leaves the rest
  uninitialised. A 64-bit, double or string argument writes past it. Neither
  the partial write nor the overrun is modelled.
- Sending a reply can fail (`dbus_connection_send failed.`, written by the
  three reply functions). The model does not represent that failure or its
  diagnostic line. A `ReplyGet`, `ReplySet` or `ReplyIntrospection` event
  stands for the attempt to send the reply.
- The client's error output is not modelled: `perror` after a failed
  `select`, `recvfrom` or send, "timeout on read.", and "Short read on
  recv". The model states only the return codes and the memory those paths
  leave.
- Concurrency is not modelled. `set_parameter_request` takes the GDK lock,
  so the server runs beside other threads, and device values arrive from
  the device side. The model treats each server call as atomic and all
  calls as strictly sequential.
- ApiClient.Client.Receive: does not model that `recvfrom` also overwrites
  the stored server address with the sender's, nor that it is passed an
  uninitialised address length. Both are outside what the model's state
  records.
- ApiClient.Client.Send: the result of `sendto` is an input. The model does
  not say which values the operating system may return.
- Memory management is modelled only for the client lists the tree frees.
  The model does not track messages the server never unrefs (those of
  dropped calls), nor per-waiter allocation.
- The debug-flag toggles (`gdigi_set_debug`, `gdigi_clear_debug`) and all
  debug output are not modelled. They do not affect behaviour.
- The bus client wrapper (`gdigi_api.c`, `gdigi_api.h` at the top level),
  the command-line tools and the examples are not modelled. They call the
  API; they are not its logic.
- `print_effect_tree.c` is not modelled. It prints static descriptive data.
