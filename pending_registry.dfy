/**
 * The contents of the pending-request tree as a value: for each key (as the
 * tree's comparator identifies it) the clients waiting for that parameter,
 * in the order their gets arrived. The server class updates this map in
 * place; this module states what each update does and what any sequence of
 * gets and deliveries leaves behind.
 */
module PendingRegistry {
  import opened ByteOrder
  import opened KeyOrder

  /** request_dbus_parameter_t: the parameter asked for and the call to answer. */
  datatype Waiter = Waiter(position: Word, id: Word, msg: nat, conn: nat)

  /** Tree identity (TreeKey of the packed key) to the waiting clients, oldest first. */
  type Pending = map<nat, seq<Waiter>>

  /** A list in the tree is never empty: an empty GList is NULL, which a lookup cannot tell from absent. */
  predicate NoEmptyLists(p: Pending)
  {
    forall t | t in p :: p[t] != []
  }

  /** g_tree_lookup, with NULL read as the empty list. */
  function Lookup(p: Pending, t: nat): seq<Waiter>
  {
    if t in p then p[t] else []
  }

  /** The tree after a get for `t`: `w` queued behind the earlier waiters, other keys untouched. */
  function WithWaiter(p: Pending, t: nat, w: Waiter): (q: Pending)
    ensures Lookup(q, t) == Lookup(p, t) + [w]
    ensures forall u | u != t :: Lookup(q, u) == Lookup(p, u)
    ensures q.Keys == p.Keys + {t}
    ensures NoEmptyLists(p) ==> NoEmptyLists(q)
  {
    p[t := Lookup(p, t) + [w]]
  }

  /** The tree after a delivery for `t`: the entry gone, other keys untouched. */
  function WithoutKey(p: Pending, t: nat): (q: Pending)
    ensures Lookup(q, t) == []
    ensures forall u | u != t :: Lookup(q, u) == Lookup(p, u)
    ensures q.Keys == p.Keys - {t}
    ensures NoEmptyLists(p) ==> NoEmptyLists(q)
  {
    p - {t}
  }

  /** Two gets for one key, then a delivery: both waiters in order, then nothing left. */
  lemma TwoWaitersThenDelivery(p: Pending, t: nat, h1: Waiter, h2: Waiter)
    ensures Lookup(WithWaiter(WithWaiter(p, t, h1), t, h2), t) == Lookup(p, t) + [h1, h2]
    ensures Lookup(WithoutKey(WithWaiter(WithWaiter(p, t, h1), t, h2), t), t) == []
  {
    assert Lookup(p, t) + [h1] + [h2] == Lookup(p, t) + [h1, h2];
  }

  /** What happens at the server, in the order it happens. */
  datatype Event =
    | GetArrived(key: Word, w: Waiter)  // a get for the packed key, from w
    | ValueDelivered(key: Word)         // the device reports a value for the packed key

  function Step(p: Pending, e: Event): Pending
  {
    match e
    case GetArrived(k, w) => WithWaiter(p, TreeKey(k), w)
    case ValueDelivered(k) => WithoutKey(p, TreeKey(k))
  }

  /** The waiters an event answers: a delivery answers everyone queued for its key. */
  function Answered(p: Pending, e: Event): seq<Waiter>
  {
    match e
    case GetArrived(_, _) => []
    case ValueDelivered(k) => Lookup(p, TreeKey(k))
  }

  /** The tree after a run of events, starting from the empty tree gdigi_dbus_init makes. */
  function Run(es: seq<Event>): Pending
  {
    if es == [] then map[] else Step(Run(es[..|es| - 1]), es[|es| - 1])
  }

  /** True of a delivery for tree identity `t`. */
  predicate DeliversTo(e: Event, t: nat)
  {
    e.ValueDelivered? && TreeKey(e.key) == t
  }

  /** The waiters of the gets for `t` in `es`, in order (a reference definition, by filtering). */
  function GetsFor(es: seq<Event>, t: nat): seq<Waiter>
  {
    if es == [] then []
    else
      var e := es[|es| - 1];
      GetsFor(es[..|es| - 1], t) + (if e.GetArrived? && TreeKey(e.key) == t then [e.w] else [])
  }

  /** The index just past the last delivery for `t` in `es`, or 0 if there is none. */
  function LastDeliveryEnd(es: seq<Event>, t: nat): (n: nat)
    ensures n <= |es|
    ensures forall i | n <= i < |es| :: !DeliversTo(es[i], t)
    ensures n > 0 ==> DeliversTo(es[n - 1], t)
  {
    if es == [] then 0
    else if DeliversTo(es[|es| - 1], t) then |es|
    else LastDeliveryEnd(es[..|es| - 1], t)
  }

  /**
   * After any run of events, the clients waiting for a key are exactly those
   * whose gets for it arrived after its last delivery, in arrival order.
   */
  lemma {:induction false} RunIsGetsSinceLastDelivery(es: seq<Event>, t: nat)
    ensures Lookup(Run(es), t) == GetsFor(es[LastDeliveryEnd(es, t)..], t)
  {
    if es == [] {
    } else {
      var init, e := es[..|es| - 1], es[|es| - 1];
      RunIsGetsSinceLastDelivery(init, t);
      var n := LastDeliveryEnd(es, t);
      if DeliversTo(e, t) {
        assert es[n..] == [];
      } else {
        assert n == LastDeliveryEnd(init, t);
        var tail := es[n..];
        assert tail[..|tail| - 1] == init[n..];
        assert tail[|tail| - 1] == e;
      }
    }
  }

  /** No run of events leaves an empty list in the tree. */
  lemma {:induction false} RunHasNoEmptyLists(es: seq<Event>)
    ensures NoEmptyLists(Run(es))
  {
    if es != [] {
      RunHasNoEmptyLists(es[..|es| - 1]);
    }
  }

  /**
   * A delivery answers exactly the gets for its key since the previous
   * delivery for that key, in arrival order, and leaves none of them waiting;
   * a second delivery in a row therefore answers no one.
   */
  lemma DeliveryAnswersGetsSinceLast(es: seq<Event>, k: Word)
    ensures Answered(Run(es), ValueDelivered(k)) == GetsFor(es[LastDeliveryEnd(es, TreeKey(k))..], TreeKey(k))
    ensures Lookup(Run(es + [ValueDelivered(k)]), TreeKey(k)) == []
    ensures Answered(Run(es + [ValueDelivered(k)]), ValueDelivered(k)) == []
  {
    RunIsGetsSinceLastDelivery(es, TreeKey(k));
    assert (es + [ValueDelivered(k)])[..|es|] == es;
  }

  /** Events for keys the comparator tells apart do not disturb each other's entries. */
  lemma OtherKeysIndependent(es: seq<Event>, e: Event, t: nat)
    requires TreeKey(e.key) != t
    ensures Lookup(Run(es + [e]), t) == Lookup(Run(es), t)
  {
    assert (es + [e])[..|es|] == es;
  }
}
