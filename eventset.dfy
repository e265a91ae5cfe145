// EventSet: a collection of named events, with subscription that creates
// the event on demand, and a mute flag for local dispatch.  GlobalEventSet
// is the EventSet every fireEvent goes through first, under the name
// "namespace/name".  Event names are the code points of the String keys.

module EventSets {
  import opened Utf
  import opened Errors
  import opened RefCounting
  import opened Events

  /** The '/' between a namespace and an event name. */
  const SEPARATOR: utf32 := 0x2F

  /** eventNamespace + "/" + name */
  function GlobalName(ns: seq<utf32>, name: seq<utf32>): seq<utf32>
  {
    ns + [SEPARATOR] + name
  }

  /** The position of the first '/' in `g`, or |g| when there is none. */
  function SeparatorIndex(g: seq<utf32>): (i: nat)
    ensures i <= |g|
    ensures i < |g| ==> g[i] == SEPARATOR
    ensures forall j :: 0 <= j < i ==> g[j] != SEPARATOR
  {
    if |g| == 0 || g[0] == SEPARATOR then 0 else 1 + SeparatorIndex(g[1..])
  }

  /** The first '/' of a global name is the one after a namespace that has
      none. */
  lemma {:induction false} SeparatorIndexOfGlobal(ns: seq<utf32>, name: seq<utf32>)
    requires SEPARATOR !in ns
    ensures SeparatorIndex(GlobalName(ns, name)) == |ns|
  {
    if |ns| > 0 {
      assert GlobalName(ns, name)[1..] == GlobalName(ns[1..], name);
      SeparatorIndexOfGlobal(ns[1..], name);
    }
  }

  /** A namespace without '/' is recovered from the global name, and so is
      the event name: different (namespace, name) pairs reach different
      global events. */
  lemma GlobalNameInjective(ns1: seq<utf32>, name1: seq<utf32>, ns2: seq<utf32>, name2: seq<utf32>)
    requires SEPARATOR !in ns1 && SEPARATOR !in ns2
    requires GlobalName(ns1, name1) == GlobalName(ns2, name2)
    ensures ns1 == ns2 && name1 == name2
  {
    var g := GlobalName(ns1, name1);
    SeparatorIndexOfGlobal(ns1, name1);
    SeparatorIndexOfGlobal(ns2, name2);
    assert ns1 == g[..|ns1|] && ns2 == g[..|ns2|];
    assert name1 == g[|ns1| + 1..] && name2 == g[|ns2| + 1..];
  }

  /** Two 32-bit additions in a row are one addition of the sum. */
  lemma AddMod(a: int, b: nat, c: nat)
    ensures ((a + b) % UINT_MOD + c) % UINT_MOD == (a + b + c) % UINT_MOD
  {
    var q := (a + b) / UINT_MOD;
    assert a + b == q * UINT_MOD + (a + b) % UINT_MOD;
    assert a + b + c == q * UINT_MOD + ((a + b) % UINT_MOD + c);
  }

  /** Destroying one more event leaves every slot disconnected earlier
      disconnected. */
  method DestroyAfter(ev: Event, ghost gone: set<BoundSlot>, ghost others: set<Event>)
    requires forall b :: b in gone ==> b.event == null && !b.subscriber.connected
    requires ev !in others
    modifies ev, ev.Slots()
    ensures ev.slots == []
    ensures forall e :: e in others ==> e.slots == old(e.slots)
    ensures forall b :: b in old(ev.slots) ==> b.event == null && !b.subscriber.connected
    ensures forall b :: b in gone ==> b.event == null && !b.subscriber.connected
  {
    ev.Destroy();
  }

  /** Destroying each of a set of events, in any order: every one is left
      empty and every slot it held disconnected. */
  method DestroyEach(evs: set<Event>, ghost footprint: set<object>)
    requires forall e :: e in evs ==> e.Slots() <= footprint
    modifies evs, footprint
    ensures forall e :: e in evs ==> e.slots == []
    ensures forall e, b :: e in evs && b in old(e.slots) ==> b.event == null && !b.subscriber.connected
  {
    var todo := evs;
    ghost var done: set<Event> := {};
    ghost var gone: set<BoundSlot> := {};
    while todo != {}
      invariant todo + done == evs && todo !! done
      invariant forall e :: e in done ==> e.slots == []
      invariant forall e :: e in todo ==> e.slots == old(e.slots)
      invariant forall e, b :: e in done && b in old(e.slots) ==> b in gone
      invariant forall b :: b in gone ==> b.event == null && !b.subscriber.connected
      decreases todo
    {
      var ev :| ev in todo;
      assert forall o :: o in ev.Slots() ==> o in old(ev.Slots());
      ghost var before := ev.slots;
      DestroyAfter(ev, gone, todo + done - {ev});
      gone := gone + (set b | b in before);
      todo, done := todo - {ev}, done + {ev};
    }
  }

  class EventSet {
    /** d_events */
    var events: map<seq<utf32>, Event>
    /** d_muted */
    var muted: bool

    /** Every event is stored under its own name and keeps its container
        in iteration order. */
    ghost predicate Valid()
      reads this, events.Values
    {
      forall name :: name in events ==> events[name].name == name && events[name].Valid()
    }

    /** The bound slots and subscribers of every event. */
    ghost function AllSlots(): set<object>
      reads this, events.Values
    {
      set e, o | e in events.Values && o in e.Slots() :: o
    }

    /** EventSet(): no events, not muted. */
    constructor()
      ensures Valid() && events == map[] && !muted
    {
      events := map[];
      muted := false;
    }

    /** isEventPresent(name): an absent event reaches no subscriber when
        fired; a present one, in an unmuted set, reaches its own. */
    function IsEventPresent(name: seq<utf32>): (r: bool)
      reads this
      ensures !r ==> Reached(name) == []
      ensures r && !muted ==> name in events && Reached(name) == events[name].slots
    {
      name in events
    }

    /** addEvent(name): AlreadyExists for a name already present; otherwise
        a new, empty event under that name. */
    method AddEvent(name: seq<utf32>) returns (r: Outcome)
      requires Valid()
      modifies this
      ensures Valid() && muted == old(muted)
      ensures old(name in events) ==> r == Failure(AlreadyExists) && events == old(events)
      ensures !old(name in events) ==>
                && r == Success && name in events && fresh(events[name])
                && events[name].slots == [] && events == old(events)[name := events[name]]
    {
      if IsEventPresent(name) {
        return Failure(AlreadyExists);
      }
      var ev := new Event(name);
      events := events[name := ev];
      return Success;
    }

    /** removeEvent(name): the event, if present, is deleted (see
        Event.Destroy) and its entry erased; otherwise nothing happens. */
    method RemoveEvent(name: seq<utf32>)
      requires Valid()
      modifies this, if name in events then {events[name] as object} + events[name].Slots() else {}
      ensures Valid() && muted == old(muted) && events == old(events) - {name}
      ensures name in old(events) ==>
                && old(events[name]).slots == []
                && forall b :: b in old(events[name].slots) ==> b.event == null && !b.subscriber.connected
    {
      if name in events {
        var ev := events[name];
        ev.Destroy();
        events := events - {name};
      }
    }

    /** removeAllEvents(): every event is deleted, then the map is
        cleared. */
    method RemoveAllEvents()
      requires Valid()
      modifies this, events.Values, AllSlots()
      ensures Valid() && muted == old(muted) && events == map[]
      ensures forall e :: e in old(events.Values) ==> e.slots == []
      ensures forall e, b :: e in old(events.Values) && b in old(e.slots) ==>
                b.event == null && !b.subscriber.connected
    {
      DestroyEach(events.Values, AllSlots());
      events := map[];
    }

    /** getEventObject(name): the event, or null for an absent name; the
        map does not change. */
    method FindEventObject(name: seq<utf32>) returns (ev: Event?)
      ensures name in events ==> ev == events[name]
      ensures name !in events ==> ev == null
    {
      if name in events {
        ev := events[name];
      } else {
        ev := null;
      }
    }

    /** getEventObject(name, autoAdd): as FindEventObject, except that an
        absent name is first added when `autoAdd` is set. */
    method GetEventObject(name: seq<utf32>, autoAdd: bool) returns (ev: Event?)
      requires Valid()
      modifies this
      ensures Valid() && muted == old(muted)
      ensures old(name in events) ==> events == old(events) && ev == events[name]
      ensures !old(name in events) && !autoAdd ==> events == old(events) && ev == null
      ensures !old(name in events) && autoAdd ==>
                && ev != null && fresh(ev) && ev.slots == []
                && events == old(events)[name := ev]
    {
      ev := FindEventObject(name);
      if ev == null && autoAdd {
        var _ := AddEvent(name);
        ev := events[name];
      }
    }

    /** subscribeEvent(name, group, subscriber): the event, created if
        absent, gains the subscription. */
    method SubscribeEvent(name: seq<utf32>, group: Group, functor: nat) returns (c: RefCounted<BoundSlot>)
      requires Valid()
      modifies this, if name in events then {events[name]} else {}
      ensures Valid() && muted == old(muted) && IsEventPresent(name)
      ensures events.Keys == old(events.Keys) + {name}
      ensures forall k :: k in old(events) && k != name ==> events[k] == old(events[k])
      ensures fresh(c) && c.Valid() && c.pointee.Some? && fresh(c.pointee.value)
      ensures var b := c.pointee.value;
              && b.group == group && b.event == events[name] && b.subscriber.functor == functor
              && (old(name in events) ==>
                    && events[name] == old(events[name])
                    && events[name].slots == Inserted(old(events[name].slots), UpperBound(old(events[name].slots), group), b))
              && (!old(name in events) ==> fresh(events[name]) && events[name].slots == [b])
    {
      var ev := GetEventObject(name, true);
      c := ev.Subscribe(group, functor);
    }

    /** subscribeEvent(name, subscriber): the default group, so the new
        subscription is dispatched last. */
    method SubscribeEventDefault(name: seq<utf32>, functor: nat) returns (c: RefCounted<BoundSlot>)
      requires Valid()
      modifies this, if name in events then {events[name]} else {}
      ensures Valid() && muted == old(muted) && IsEventPresent(name)
      ensures events.Keys == old(events.Keys) + {name}
      ensures forall k :: k in old(events) && k != name ==> events[k] == old(events[k])
      ensures fresh(c) && c.Valid() && c.pointee.Some? && fresh(c.pointee.value)
      ensures var b := c.pointee.value;
              && b.group == DEFAULT_GROUP && b.event == events[name] && b.subscriber.functor == functor
              && (old(name in events) ==>
                    events[name] == old(events[name]) && events[name].slots == old(events[name].slots) + [b])
              && (!old(name in events) ==> fresh(events[name]) && events[name].slots == [b])
    {
      var ev := GetEventObject(name, true);
      c := ev.SubscribeDefault(functor);
    }

    /** fireEvent_impl(name, args): the event is fired only when it exists
        and the set is not muted; otherwise nothing changes. */
    method FireEventImpl(name: seq<utf32>, args: EventArgs, outcome: nat -> bool) returns (invoked: seq<nat>)
      modifies args
      ensures name in events && !muted ==>
                && invoked == Functors(events[name].slots)
                && args.handled == (old(args.handled) + Handled(events[name].slots, outcome)) % UINT_MOD
      ensures !(name in events && !muted) ==> invoked == [] && args.handled == old(args.handled)
      ensures var r := old(Reached(name));
              invoked == Functors(r) && args.handled == (old(args.handled) + Handled(r, outcome)) % UINT_MOD
    {
      var ev := FindEventObject(name);
      if ev != null && !muted {
        invoked := ev.Fire(args, outcome);
      } else {
        invoked := [];
      }
    }

    /** The subscribers fireEvent_impl(name, ...) reaches. */
    ghost function Reached(name: seq<utf32>): seq<BoundSlot>
      reads this, events.Values
    {
      if name in events && !muted then events[name].slots else []
    }

    /** fireEvent(name, args, eventNamespace): the global set fires
        "eventNamespace/name" first, then this set fires `name`; muting
        this set suppresses only the second step. */
    method FireEvent(name: seq<utf32>, args: EventArgs, ns: seq<utf32>, global: GlobalEventSet,
                     outcome: nat -> bool) returns (invoked: seq<nat>)
      modifies args
      ensures var g := old(global.base.Reached(GlobalName(ns, name)));
              var l := old(Reached(name));
              && invoked == Functors(g) + Functors(l)
              && args.handled == (old(args.handled) + Handled(g, outcome) + Handled(l, outcome)) % UINT_MOD
    {
      ghost var h0 := args.handled;
      ghost var l := Reached(name);
      var first := global.FireEvent(name, args, ns, outcome);
      assert Reached(name) == l;
      var second := FireEventImpl(name, args, outcome);
      invoked := first + second;
      AddMod(h0, Handled(old(global.base.Reached(GlobalName(ns, name))), outcome), Handled(l, outcome));
    }

    /** isMuted(): a muted set reaches no subscriber of any event. */
    function IsMuted(): (r: bool)
      reads this
      ensures r ==> forall n :: Reached(n) == []
    {
      muted
    }

    /** setMutedState(setting) */
    method SetMutedState(setting: bool)
      modifies this
      ensures muted == setting && events == old(events)
    {
      muted := setting;
    }
  }

  /** GlobalEventSet: an EventSet whose fireEvent dispatches the namespaced
      name locally, and only locally. */
  class GlobalEventSet {
    /** The EventSet this set is. */
    const base: EventSet

    constructor()
      ensures fresh(base) && base.Valid() && base.events == map[] && !base.muted
    {
      base := new EventSet();
    }

    /** fireEvent(name, args, eventNamespace): fireEvent_impl on
        eventNamespace + "/" + name. */
    method FireEvent(name: seq<utf32>, args: EventArgs, ns: seq<utf32>, outcome: nat -> bool)
      returns (invoked: seq<nat>)
      modifies args
      ensures var g := old(base.Reached(GlobalName(ns, name)));
              && invoked == Functors(g)
              && args.handled == (old(args.handled) + Handled(g, outcome)) % UINT_MOD
    {
      invoked := base.FireEventImpl(GlobalName(ns, name), args, outcome);
    }
  }

  /** A single subscriber is called once and counts once if it reports
      the event handled. */
  lemma OneSubscriber(b: BoundSlot, outcome: nat -> bool)
    ensures Functors([b]) == [b.subscriber.functor]
    ensures Handled([b], outcome) == if outcome(b.subscriber.functor) then 1 else 0
  {
    assert [b][..0] == [];
  }

  /** A new global set with one subscription, to `key`. */
  method SubscribedGlobal(key: seq<utf32>, functor: nat) returns (global: GlobalEventSet, b: BoundSlot)
    ensures fresh(global) && fresh(global.base)
    ensures global.base.Reached(key) == [b] && b.subscriber.functor == functor
  {
    global := new GlobalEventSet();
    var c := global.base.SubscribeEventDefault(key, functor);
    b := c.pointee.value;
  }

  /** Late binding: a subscription to "Win/Clk" in the global set, made
      before any such event is fired, is reached by a later
      fireEvent("Clk", args, "Win") on an EventSet that has no event of
      that name. */
  method LateBinding() returns (handled: nat, invoked: seq<nat>)
    ensures handled == 1 && invoked == [7]
  {
    var ns: seq<utf32> := [0x57, 0x69, 0x6E];
    var name: seq<utf32> := [0x43, 0x6C, 0x6B];
    var global, b := SubscribedGlobal(GlobalName(ns, name), 7);
    var local := new EventSet();
    var args := new EventArgs();
    var always := (f: nat) => true;
    OneSubscriber(b, always);
    invoked := local.FireEvent(name, args, ns, global, always);
    handled := args.handled;
  }
}
