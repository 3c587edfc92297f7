/**
 * What the server does with one message popped off the bus
 * (gdigi_dbus_read), decided from the message alone: a get, a set, an
 * introspection request, an unknown message, or a call with too few
 * arguments. A message is abstracted to what the server inspects: whether
 * it is a method call, its interface and member names, and its arguments.
 */
module DBusDispatch {
  import opened ByteOrder

  const ParameterInterface: string := "gdigi.parameter.io"
  const GetMember: string := "get"
  const SetMember: string := "set"
  const IntrospectableInterface: string := "org.freedesktop.DBus.Introspectable"
  const IntrospectMember: string := "Introspect"

  /** The D-Bus type code of a 32-bit unsigned integer. */
  const UInt32Type: char := 'u'

  datatype Option<+T> = None | Some(value: T)

  /**
   * One argument of a message: its type code, and the word the server finds
   * in its dbus_uint32_t after dbus_message_iter_get_basic. For a uint32
   * argument that is the argument's value; for any other type it is left
   * unconstrained (an arbitrary word).
   */
  datatype Arg = Arg(typeCode: char, bits: Word)

  /**
   * A received message; `serial` identifies it when the server replies to it.
   * D-Bus lets a method call omit its interface, so `iface` may be None.
   */
  datatype Message = Message(isMethodCall: bool, iface: Option<string>, member: string, args: seq<Arg>, serial: nat)

  /**
   * dbus_message_is_method_call: a method call with the given member whose
   * interface is the given one or is missing (libdbus treats a missing
   * interface as matching any).
   */
  predicate IsMethodCall(m: Message, iface: string, member: string)
    ensures IsMethodCall(m, iface, member) <==>
      m.isMethodCall && m.member == member && m.iface in {None, Some(iface)}
  {
    m.isMethodCall && (m.iface.None? || m.iface.value == iface) && m.member == member
  }

  /** A get or a set of the parameter interface: the calls whose arguments are read. */
  predicate IsParameterCall(m: Message)
  {
    IsMethodCall(m, ParameterInterface, GetMember) || IsMethodCall(m, ParameterInterface, SetMember)
  }

  /** The lines the server writes to its error stream while reading a message. */
  datatype Diagnostic =
    | UnknownMessage
    | NoArgs
    | FirstArgNotUInt32
    | SecondArgNotUInt32
    | TooFewArgs
    | ThirdArgNotUInt32

  datatype Action =
    | NoMessage                                     // nothing was waiting on the bus
    | AnswerIntrospection                           // reply with the interface description
    | Drop                                          // processing ends with no get and no set
    | ApplySet(position: Word, id: Word, value: Word) // set the parameter, acknowledge with 0
    | QueueGet(position: Word, id: Word)              // queue the caller, query the device

  datatype Decision = Decision(diagnostics: seq<Diagnostic>, action: Action)

  /** A wrongly typed argument is reported and then read all the same. */
  function TypeCheck(a: Arg, d: Diagnostic): (r: seq<Diagnostic>)
    ensures r == [] <==> a.typeCode == UInt32Type
    ensures r != [] ==> r == [d]
  {
    if a.typeCode == UInt32Type then [] else [d]
  }

  /** True of the diagnostics that end the processing of a message. */
  predicate Fatal(d: Diagnostic)
  {
    d == UnknownMessage || d == NoArgs || d == TooFewArgs
  }

  function Decide(msg: Option<Message>): (d: Decision)
    ensures d.action.NoMessage? <==> msg.None?
    ensures d.action.AnswerIntrospection? <==>
      msg.Some? && IsMethodCall(msg.value, IntrospectableInterface, IntrospectMember)
    ensures d.action.QueueGet? <==>
      msg.Some? && IsMethodCall(msg.value, ParameterInterface, GetMember) && |msg.value.args| >= 2
    ensures d.action.ApplySet? <==>
      msg.Some? && IsMethodCall(msg.value, ParameterInterface, SetMember) && |msg.value.args| >= 3
    ensures d.action.QueueGet? ==> d.action == QueueGet(msg.value.args[0].bits, msg.value.args[1].bits)
    ensures d.action.ApplySet? ==>
      d.action == ApplySet(msg.value.args[0].bits, msg.value.args[1].bits, msg.value.args[2].bits)
    ensures d.action.Drop? <==> |d.diagnostics| > 0 && Fatal(d.diagnostics[|d.diagnostics| - 1])
    ensures forall i | 0 <= i < |d.diagnostics| - 1 :: !Fatal(d.diagnostics[i])
    ensures !d.action.Drop? ==> forall i | 0 <= i < |d.diagnostics| :: !Fatal(d.diagnostics[i])
  {
    match msg
    case None => Decision([], NoMessage)
    case Some(m) =>
      if IsMethodCall(m, ParameterInterface, GetMember) then DecideCall(m, false)
      else if IsMethodCall(m, ParameterInterface, SetMember) then DecideCall(m, true)
      else if IsMethodCall(m, IntrospectableInterface, IntrospectMember) then
        Decision([], AnswerIntrospection)
      else
        Decision([UnknownMessage], Drop)
  }

  /** The argument checks of a get (`isSet` false) or a set call. */
  function DecideCall(m: Message, isSet: bool): (d: Decision)
    ensures d.action.QueueGet? <==> !isSet && |m.args| >= 2
    ensures d.action.ApplySet? <==> isSet && |m.args| >= 3
    ensures d.action.QueueGet? || d.action.ApplySet? || d.action.Drop?
  {
    if |m.args| == 0 then Decision([NoArgs], Drop)
    else
      var first := TypeCheck(m.args[0], FirstArgNotUInt32);
      if |m.args| < 2 then Decision(first + [TooFewArgs], Drop)
      else
        var second := first + TypeCheck(m.args[1], SecondArgNotUInt32);
        if !isSet then Decision(second, QueueGet(m.args[0].bits, m.args[1].bits))
        else if |m.args| < 3 then Decision(second + [TooFewArgs], Drop)
        else
          Decision(second + TypeCheck(m.args[2], ThirdArgNotUInt32),
                   ApplySet(m.args[0].bits, m.args[1].bits, m.args[2].bits))
  }

  /** Each argument of a get or set is type-checked exactly when it is read. */
  lemma DecideCallTypeChecks(m: Message, isSet: bool)
    ensures var d := DecideCall(m, isSet);
      && (FirstArgNotUInt32 in d.diagnostics <==> |m.args| >= 1 && m.args[0].typeCode != UInt32Type)
      && (SecondArgNotUInt32 in d.diagnostics <==> |m.args| >= 2 && m.args[1].typeCode != UInt32Type)
      && (ThirdArgNotUInt32 in d.diagnostics <==> isSet && |m.args| >= 3 && m.args[2].typeCode != UInt32Type)
  {
  }

  /**
   * Each argument a get or set reads is type-checked: a wrongly typed one is
   * reported, and (by Decide's contract) the action is the same as for a
   * well-typed one. Nothing else is type-checked.
   */
  lemma DecideTypeChecks(msg: Option<Message>)
    ensures var d := Decide(msg);
      && (FirstArgNotUInt32 in d.diagnostics <==>
          msg.Some? && IsParameterCall(msg.value) && |msg.value.args| >= 1 && msg.value.args[0].typeCode != UInt32Type)
      && (SecondArgNotUInt32 in d.diagnostics <==>
          msg.Some? && IsParameterCall(msg.value) && |msg.value.args| >= 2 && msg.value.args[1].typeCode != UInt32Type)
      && (ThirdArgNotUInt32 in d.diagnostics <==>
          msg.Some? && IsMethodCall(msg.value, ParameterInterface, SetMember) && |msg.value.args| >= 3 &&
          msg.value.args[2].typeCode != UInt32Type)
  {
    if msg.Some? && IsParameterCall(msg.value) {
      DecideCallTypeChecks(msg.value, !IsMethodCall(msg.value, ParameterInterface, GetMember));
    }
  }

  /**
   * Which fatal complaint ends a dropped message: "Unknown message" exactly for
   * a message that is none of get, set and Introspect; "no args" exactly for
   * a get or set without arguments; "too few args" exactly for a get or set
   * with one argument, or a set with two.
   */
  lemma DecideFatalComplaints(m: Message)
    ensures var d := Decide(Some(m));
      && (UnknownMessage in d.diagnostics <==>
          !IsParameterCall(m) && !IsMethodCall(m, IntrospectableInterface, IntrospectMember))
      && (NoArgs in d.diagnostics <==> IsParameterCall(m) && |m.args| == 0)
      && (TooFewArgs in d.diagnostics <==>
          IsParameterCall(m) && (|m.args| == 1 || (|m.args| == 2 && !IsMethodCall(m, ParameterInterface, GetMember))))
  {
    if IsParameterCall(m) {
      DecideCallTypeChecks(m, !IsMethodCall(m, ParameterInterface, GetMember));
    }
  }

  /** The call a client makes to read a parameter: get(pos, id), both uint32. */
  function GetCall(position: Word, id: Word, serial: nat): Message
  {
    Message(true, Some(ParameterInterface), GetMember, [Arg(UInt32Type, position), Arg(UInt32Type, id)], serial)
  }

  /** The call a client makes to write a parameter: set(pos, id, val), all uint32. */
  function SetCall(position: Word, id: Word, value: Word, serial: nat): Message
  {
    Message(true, Some(ParameterInterface), SetMember,
            [Arg(UInt32Type, position), Arg(UInt32Type, id), Arg(UInt32Type, value)], serial)
  }

  /** A well-formed get call is queued for its own (position, id), silently. */
  lemma GetCallIsQueued(position: Word, id: Word, serial: nat)
    ensures Decide(Some(GetCall(position, id, serial))) == Decision([], QueueGet(position, id))
  {
  }

  /** A well-formed set call is applied with its own (position, id, value), silently. */
  lemma SetCallIsApplied(position: Word, id: Word, value: Word, serial: nat)
    ensures Decide(Some(SetCall(position, id, value, serial))) == Decision([], ApplySet(position, id, value))
  {
  }

  /** A get or set with a single argument is dropped with a complaint about too few. */
  lemma OneArgumentIsTooFew(m: Message)
    requires IsMethodCall(m, ParameterInterface, GetMember) || IsMethodCall(m, ParameterInterface, SetMember)
    requires |m.args| == 1
    ensures Decide(Some(m)).action == Drop
    ensures Decide(Some(m)).diagnostics[|Decide(Some(m)).diagnostics| - 1] == TooFewArgs
  {
  }

  /** A get call that names no interface is queued like one that names the parameter interface. */
  lemma GetWithoutInterfaceIsQueued(position: Word, id: Word, serial: nat)
    ensures Decide(Some(GetCall(position, id, serial).(iface := None))) == Decision([], QueueGet(position, id))
  {
  }

  /** Any method of the parameter interface other than get and set is unknown. */
  lemma OtherMethodsAreUnknown(m: Message)
    requires m.iface == Some(ParameterInterface) && m.member != GetMember && m.member != SetMember
    ensures Decide(Some(m)) == Decision([UnknownMessage], Drop)
  {
  }
}
