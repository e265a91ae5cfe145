// Event: the subscribers of one named event, kept in a multimap keyed by
// group, invoked in ascending group order and, within one group, in the
// order they subscribed.  BoundSlot ties a subscriber to the event, and
// ScopedConnection disconnects the subscription it holds when it goes away.

module Events {
  import opened Utf
  import opened Errors
  import opened RefCounting

  /** Event::Group: an unsigned 32-bit int. */
  type Group = g: int | 0 <= g < 0x1_0000_0000

  /** static_cast<Group>(-1): the group subscribe(slot) uses, the last one
      dispatched. */
  const DEFAULT_GROUP: Group := 0xFFFF_FFFF

  /** EventArgs::handled is an unsigned 32-bit int. */
  const UINT_MOD: nat := 0x1_0000_0000

  /** unsigned int */
  type uint32 = x: int | 0 <= x < 0x1_0000_0000

  /** EventArgs: `handled` counts the subscribers that reported the event
      as handled. */
  class EventArgs {
    var handled: uint32

    constructor()
      ensures handled == 0
    {
      handled := 0;
    }
  }

  /** SubscriberSlot: the callable it wraps, named by `functor`, and whether
      it still holds it (d_functor_impl != 0). */
  class SubscriberSlot {
    const functor: nat
    var connected: bool

    constructor(functor: nat)
      ensures this.functor == functor && connected
    {
      this.functor := functor;
      connected := true;
    }

    /** cleanup(): the wrapped callable is released. */
    method Cleanup()
      modifies this
      ensures !connected
    {
      connected := false;
    }
  }

  /** BoundSlot: the group of the subscription, its own copy of the
      subscriber, and a back-reference to the event (null once the event
      is gone or the slot was disconnected). */
  class BoundSlot {
    const group: Group
    const subscriber: SubscriberSlot
    var event: Event?

    /** BoundSlot(group, subscriber, event): a new SubscriberSlot copy of
        the subscriber. */
    constructor(group: Group, functor: nat, event: Event)
      ensures this.group == group && this.event == event
      ensures fresh(subscriber) && subscriber.functor == functor && Connected()
    {
      this.group := group;
      this.event := event;
      subscriber := new SubscriberSlot(functor);
    }

    /** connected(): the subscriber still holds its callable. */
    predicate Connected()
      reads this, subscriber
    {
      subscriber.connected
    }

    /** disconnect(): the subscriber is cleaned up, then the event, if any,
        drops this slot and the back-reference is cleared.  A second call
        finds nothing to do. */
    method Disconnect()
      requires event != null ==> event.Valid()
      modifies this, subscriber, event
      ensures event == null && !Connected()
      ensures old(event) != null ==>
                old(event).Valid() && old(event).slots == Unsubscribed(old(event.slots), this)
    {
      if subscriber.connected {
        subscriber.Cleanup();
      }
      if event != null {
        event.Unsubscribe(this);
        event := null;
      }
    }
  }

  /** Iteration order of the multimap: groups never decrease. */
  predicate Sorted(s: seq<BoundSlot>)
  {
    forall i, j :: 0 <= i < j < |s| ==> s[i].group <= s[j].group
  }

  /** Where multimap::insert puts a new entry of group `g`: after every
      entry of a group up to `g`, before every entry of a greater group. */
  function UpperBound(s: seq<BoundSlot>, g: Group): (k: nat)
    requires Sorted(s)
    ensures k <= |s|
    ensures forall i :: 0 <= i < k ==> s[i].group <= g
    ensures forall i :: k <= i < |s| ==> s[i].group > g
  {
    if s == [] then 0
    else if s[|s| - 1].group <= g then |s|
    else UpperBound(s[..|s| - 1], g)
  }

  /** The container after `b` is inserted at position `k`. */
  function Inserted(s: seq<BoundSlot>, k: nat, b: BoundSlot): (r: seq<BoundSlot>)
    requires k <= |s|
  {
    s[..k] + [b] + s[k..]
  }

  /** Inserting at the upper bound of its group keeps the container in
      iteration order. */
  lemma InsertedSorted(s: seq<BoundSlot>, b: BoundSlot)
    requires Sorted(s)
    ensures Sorted(Inserted(s, UpperBound(s, b.group), b))
  {
    var k := UpperBound(s, b.group);
    var r := Inserted(s, k, b);
    forall i, j | 0 <= i < j < |r|
      ensures r[i].group <= r[j].group
    {
      if j < k {
        assert r[i] == s[i] && r[j] == s[j];
      } else if j == k {
        assert r[j] == b && r[i] == s[i];
      } else if i < k {
        assert r[i] == s[i] && r[j] == s[j - 1];
      } else if i == k {
        assert r[i] == b && r[j] == s[j - 1];
      } else {
        assert r[i] == s[i - 1] && r[j] == s[j - 1];
      }
    }
  }

  /** The default group is the greatest: subscribe(slot) appends. */
  lemma UpperBoundOfDefault(s: seq<BoundSlot>)
    requires Sorted(s)
    ensures UpperBound(s, DEFAULT_GROUP) == |s|
  {
  }

  /** The first entry whose subscriber is `sub`, or |s| when there is none:
      the position std::find_if reaches. */
  function FirstOf(s: seq<BoundSlot>, sub: SubscriberSlot): (k: nat)
    ensures k <= |s|
    ensures forall i :: 0 <= i < k ==> s[i].subscriber != sub
    ensures k < |s| ==> s[k].subscriber == sub
  {
    if s == [] then 0
    else if s[0].subscriber == sub then 0
    else 1 + FirstOf(s[1..], sub)
  }

  /** The container after unsubscribe(slot): the first entry equal to
      `slot` (the same subscriber) is erased, if there is one. */
  function Unsubscribed(s: seq<BoundSlot>, slot: BoundSlot): (r: seq<BoundSlot>)
  {
    var k := FirstOf(s, slot.subscriber);
    if k < |s| then s[..k] + s[k + 1..] else s
  }

  /** Erasing keeps the container in iteration order. */
  lemma UnsubscribedSorted(s: seq<BoundSlot>, slot: BoundSlot)
    requires Sorted(s)
    ensures Sorted(Unsubscribed(s, slot))
  {
    var k := FirstOf(s, slot.subscriber);
    var r := Unsubscribed(s, slot);
    if k < |s| {
      forall i, j | 0 <= i < j < |r|
        ensures r[i].group <= r[j].group
      {
        var i' := if i < k then i else i + 1;
        var j' := if j < k then j else j + 1;
        assert r[i] == s[i'] && r[j] == s[j'];
      }
    }
  }

  /** Unsubscribing removes at most one entry: exactly one, keeping the
      others in order, when some entry has the slot's subscriber, and
      none otherwise. */
  lemma UnsubscribedRemovesOne(s: seq<BoundSlot>, slot: BoundSlot)
    ensures (exists i :: 0 <= i < |s| && s[i].subscriber == slot.subscriber) ==>
              |Unsubscribed(s, slot)| == |s| - 1
    ensures (forall i :: 0 <= i < |s| ==> s[i].subscriber != slot.subscriber) ==>
              Unsubscribed(s, slot) == s
  {
    var k := FirstOf(s, slot.subscriber);
    if exists i :: 0 <= i < |s| && s[i].subscriber == slot.subscriber {
      assert k < |s|;
    }
  }

  /** Unsubscribing the slot that subscribe just inserted, when no earlier
      entry shares its subscriber, gives the container back. */
  lemma UnsubscribeUndoesSubscribe(s: seq<BoundSlot>, b: BoundSlot)
    requires Sorted(s)
    requires forall i :: 0 <= i < |s| ==> s[i].subscriber != b.subscriber
    ensures Unsubscribed(Inserted(s, UpperBound(s, b.group), b), b) == s
  {
    UnsubscribeInserted(s, UpperBound(s, b.group), b);
  }

  /** Erasing the first entry of a subscriber undoes inserting it at any
      position after which it does not occur. */
  lemma UnsubscribeInserted(s: seq<BoundSlot>, k: nat, b: BoundSlot)
    requires k <= |s|
    requires forall i :: 0 <= i < k ==> s[i].subscriber != b.subscriber
    ensures Unsubscribed(Inserted(s, k, b), b) == s
  {
    var r := Inserted(s, k, b);
    assert r[..k] == s[..k];
    assert r[k + 1..] == s[k..];
    forall i | 0 <= i < k
      ensures r[i].subscriber != b.subscriber
    {
      assert r[i] == s[i];
    }
    FirstOfAt(r, b.subscriber, k);
    assert s[..k] + s[k..] == s;
  }

  /** The position of a subscriber that occurs nowhere before `k`. */
  lemma FirstOfAt(s: seq<BoundSlot>, sub: SubscriberSlot, k: nat)
    requires k < |s| && s[k].subscriber == sub
    requires forall i :: 0 <= i < k ==> s[i].subscriber != sub
    ensures FirstOf(s, sub) == k
  {
  }

  /** The callables in dispatch order. */
  function Functors(s: seq<BoundSlot>): (r: seq<nat>)
    ensures |r| == |s|
    ensures forall i :: 0 <= i < |s| ==> r[i] == s[i].subscriber.functor
  {
    if s == [] then [] else Functors(s[..|s| - 1]) + [s[|s| - 1].subscriber.functor]
  }

  /** How many of the subscribers report the event handled, given what
      each callable returns. */
  function Handled(s: seq<BoundSlot>, outcome: nat -> bool): nat
  {
    if s == [] then 0
    else Handled(s[..|s| - 1], outcome) + (if outcome(s[|s| - 1].subscriber.functor) then 1 else 0)
  }

  /** Between none and all of the subscribers report the event handled;
      all do exactly when every callable returns true. */
  lemma {:induction false} HandledBounds(s: seq<BoundSlot>, outcome: nat -> bool)
    ensures Handled(s, outcome) <= |s|
    ensures Handled(s, outcome) == |s| <==> forall i :: 0 <= i < |s| ==> outcome(s[i].subscriber.functor)
    ensures Handled(s, outcome) == 0 <==> forall i :: 0 <= i < |s| ==> !outcome(s[i].subscriber.functor)
  {
    if s != [] {
      var p := s[..|s| - 1];
      HandledBounds(p, outcome);
      assert forall i :: 0 <= i < |p| ==> p[i] == s[i];
    }
  }

  class Event {
    /** d_name */
    const name: seq<utf32>
    /** d_slots, in iteration order. */
    var slots: seq<BoundSlot>

    ghost predicate Valid()
      reads this
    {
      Sorted(slots)
    }

    /** Event(name) */
    constructor(name: seq<utf32>)
      ensures Valid() && this.name == name && slots == []
    {
      this.name := name;
      slots := [];
    }

    /** The bound slots and their subscribers. */
    ghost function Slots(): set<object>
      reads this
    {
      (set b | b in slots :: b as object) + (set b | b in slots :: b.subscriber as object)
    }

    /** subscribe(group, slot): a new BoundSlot, bound to this event, is
        inserted after every entry of its group or a smaller one; the
        handle returned is its only counted reference. */
    method Subscribe(group: Group, functor: nat) returns (c: RefCounted<BoundSlot>)
      requires Valid()
      modifies this
      ensures Valid()
      ensures fresh(c) && c.Valid() && c.pointee.Some? && fresh(c.pointee.value) && c.counter.count == 1
      ensures var b := c.pointee.value;
              && b.group == group && b.event == this && fresh(b.subscriber)
              && b.subscriber.functor == functor && b.subscriber.connected
              && slots == Inserted(old(slots), UpperBound(old(slots), group), b)
    {
      var b := new BoundSlot(group, functor, this);
      c := new RefCounted<BoundSlot>.Of(Some(b));
      InsertedSorted(slots, b);
      slots := Inserted(slots, UpperBound(slots, group), b);
    }

    /** subscribe(slot): the default group, so the new slot comes last. */
    method SubscribeDefault(functor: nat) returns (c: RefCounted<BoundSlot>)
      requires Valid()
      modifies this
      ensures Valid()
      ensures fresh(c) && c.Valid() && c.pointee.Some? && fresh(c.pointee.value) && c.counter.count == 1
      ensures var b := c.pointee.value;
              && b.group == DEFAULT_GROUP && b.event == this && fresh(b.subscriber)
              && b.subscriber.functor == functor && b.subscriber.connected
              && slots == old(slots) + [b]
    {
      UpperBoundOfDefault(slots);
      c := Subscribe(DEFAULT_GROUP, functor);
      assert old(slots)[..|old(slots)|] == old(slots);
    }

    /** operator()(args): every subscriber is called once, in iteration
        order, and `handled` goes up (in 32 bits) by the number that
        returned true. */
    method Fire(args: EventArgs, outcome: nat -> bool) returns (invoked: seq<nat>)
      modifies args
      ensures invoked == Functors(slots)
      ensures args.handled == (old(args.handled) + Handled(slots, outcome)) % UINT_MOD
    {
      invoked := [];
      var i := 0;
      ghost var h0 := args.handled;
      while i < |slots|
        invariant i <= |slots|
        invariant invoked == Functors(slots[..i])
        invariant args.handled == (h0 + Handled(slots[..i], outcome)) % UINT_MOD
      {
        var f := slots[i].subscriber.functor;
        invoked := invoked + [f];
        assert slots[..i + 1][..i] == slots[..i];
        if outcome(f) {
          args.handled := (args.handled + 1) % UINT_MOD;
        }
        i := i + 1;
      }
      assert slots[..i] == slots;
    }

    /** unsubscribe(slot): std::find_if for the first entry equal to
        `slot`, then erase it if found. */
    method Unsubscribe(slot: BoundSlot)
      requires Valid()
      modifies this
      ensures Valid()
      ensures slots == Unsubscribed(old(slots), slot)
    {
      var i := 0;
      while i < |slots| && slots[i].subscriber != slot.subscriber
        invariant i <= FirstOf(slots, slot.subscriber)
        decreases |slots| - i
      {
        i := i + 1;
      }
      UnsubscribedSorted(slots, slot);
      if i < |slots| {
        slots := slots[..i] + slots[i + 1..];
      }
    }

    /** ~Event(): every bound slot loses its back-reference and its
        subscriber is cleaned up; then the container is emptied. */
    method Destroy()
      modifies this, Slots()
      ensures slots == []
      ensures forall b :: b in old(slots) ==> b.event == null && !b.subscriber.connected
    {
      var i := 0;
      while i < |slots|
        invariant i <= |slots| && slots == old(slots)
        invariant forall j :: 0 <= j < i ==> slots[j].event == null && !slots[j].subscriber.connected
      {
        var b := slots[i];
        assert b in old(slots);
        assert b in old(Slots()) && b.subscriber in old(Slots());
        b.event := null;
        b.subscriber.Cleanup();
        i := i + 1;
      }
      slots := [];
    }
  }

  /** Event::ScopedConnection: holds a connection and disconnects it when
      destroyed. */
  class ScopedConnection {
    /** d_connection: the held handle; assignment changes what it holds. */
    const connection: RefCounted<BoundSlot>

    /** The objects disconnect() acts on. */
    ghost function Bound(): set<object>
      reads this, connection
    {
      if connection.pointee.Some? then {connection.pointee.value, connection.pointee.value.subscriber}
      else {}
    }

    /** ScopedConnection(): an empty handle. */
    constructor()
      ensures fresh(connection) && connection.Valid() && connection.pointee == None
    {
      connection := new RefCounted<BoundSlot>.Null();
    }

    /** ScopedConnection(connection): a counted copy of `c`. */
    constructor Of(c: RefCounted<BoundSlot>)
      requires c.Valid()
      modifies c.counter
      ensures fresh(connection) && connection.Valid()
      ensures connection.pointee == c.pointee && connection.counter == c.counter
      ensures c.counter != null ==> c.counter.count == old(c.counter.count) + 1
    {
      connection := new RefCounted<BoundSlot>.Copy(c);
    }

    /** operator=(connection): the held handle is reassigned; the old
        subscription is released, not disconnected.  The same connection
        changes no count; another one gains a reference, and the old one
        loses one and is deleted with its last. */
    method Assign(c: RefCounted<BoundSlot>)
      requires connection.Valid() && c.Valid()
      requires connection.pointee != c.pointee ==> connection.counter != c.counter
      modifies connection, connection.counter, c.counter
      ensures connection.Valid() && connection.pointee == old(c.pointee)
      ensures old(connection.pointee) == old(c.pointee) ==>
                && connection.counter == old(connection.counter)
                && (connection.counter != null ==> connection.counter.count == old(connection.counter.count))
      ensures old(connection.pointee) != old(c.pointee) ==>
                && connection.counter == old(c.counter)
                && (connection.counter != null ==> connection.counter.count == old(c.counter.count) + 1)
                && (old(connection.counter) != null ==>
                      && old(connection.counter).count == old(connection.counter.count) - 1
                      && (old(connection.counter).deleted <==> old(connection.counter.count) == 1))
    {
      connection.Assign(c);
    }

    /** connected(): false for an empty handle, otherwise what the bound
        slot says. */
    function Connected(): (r: bool)
      reads this, connection, Bound()
      ensures r ==> connection.IsValid() && connection.pointee.value.Connected()
    {
      if connection.IsValid() then connection.pointee.value.Connected() else false
    }

    /** disconnect(): the bound slot, if any, disconnects; an empty handle
        changes nothing. */
    method Disconnect()
      requires connection.pointee.Some? && connection.pointee.value.event != null ==>
                 connection.pointee.value.event.Valid()
      modifies Bound(), if connection.pointee.Some? then {connection.pointee.value.event} else {}
      ensures !Connected()
      ensures old(connection.pointee).Some? ==>
                var b := old(connection.pointee.value);
                && b.event == null
                && (old(b.event) != null ==> old(b.event).slots == Unsubscribed(old(b.event.slots), b))
    {
      if connection.IsValid() {
        connection.pointee.value.Disconnect();
      }
    }

    /** ~ScopedConnection(): disconnect, then the held handle is
        destroyed. */
    method Destroy()
      requires connection.Valid()
      requires connection.pointee.Some? && connection.pointee.value.event != null ==>
                 connection.pointee.value.event.Valid()
      modifies Bound(), if connection.pointee.Some? then {connection.pointee.value.event} else {}
      modifies connection, connection.counter
      ensures old(connection.pointee).Some? ==>
                var b := old(connection.pointee.value);
                && b.event == null && !b.subscriber.connected
                && old(connection.counter).count == old(connection.counter.count) - 1
    {
      Disconnect();
      connection.Destroy();
    }
  }
}
