/** PropertySet: a PropertyReceiver that owns a registry of properties
    keyed by name and ordered by String::FastLessCompare.  The registry is
    the map's entries in iteration order: a sequence of properties whose
    names strictly increase under FastLess. */
module PropertySets {
  import opened Utf
  import opened Text
  import opened Errors
  import opened Properties
  import opened Iterators

  /** The registry's keys strictly increase in FastLess order. */
  predicate Ordered(r: seq<Property>)
  {
    forall i, j :: 0 <= i < j < |r| ==> FastLess(r[i].name, r[j].name)
  }

  /** The registry's keys. */
  function Names(r: seq<Property>): set<seq<utf32>>
  {
    set p | p in r :: p.name
  }

  /** d_properties.find(name): the property registered under `name`.  The
      map compares keys by FastLess equivalence, which is equality because
      FastLess is a strict total order (Text.FastLessTotal). */
  function Lookup(r: seq<Property>, name: seq<utf32>): Option<Property>
  {
    if r == [] then None
    else if r[0].name == name then Some(r[0])
    else Lookup(r[1..], name)
  }

  /** find succeeds exactly for the registered names, and what it finds is
      registered under the name searched for. */
  lemma {:induction false} LookupFinds(r: seq<Property>, name: seq<utf32>)
    ensures Lookup(r, name).Some? <==> name in Names(r)
    ensures Lookup(r, name).Some? ==> Lookup(r, name).value in r && Lookup(r, name).value.name == name
  {
    if r != [] {
      LookupFinds(r[1..], name);
      assert Names(r) == {r[0].name} + Names(r[1..]);
    }
  }

  /** In an ordered registry find returns the one property of that name. */
  lemma {:induction false} LookupUnique(r: seq<Property>, p: Property)
    requires Ordered(r) && p in r
    ensures Lookup(r, p.name) == Some(p)
  {
    if r[0] != p {
      assert p in r[1..];
      if r[0].name == p.name {
        var j :| 0 <= j < |r| && r[j] == p;
        FastLessIrreflexive(p.name);
        assert false;
      }
      LookupUnique(r[1..], p);
    }
  }

  /** d_properties[name] = property for a new name: the property goes in
      before the first key that is FastLess-greater. */
  function Insert(r: seq<Property>, p: Property): seq<Property>
  {
    if r == [] || FastLess(p.name, r[0].name) then [p] + r
    else [r[0]] + Insert(r[1..], p)
  }

  /** An ordered registry stays ordered behind a key below all of its
      keys. */
  lemma ConsOrdered(x: Property, u: seq<Property>)
    requires Ordered(u)
    requires forall q :: q in u ==> FastLess(x.name, q.name)
    ensures Ordered([x] + u)
  {
    var t := [x] + u;
    forall i, j | 0 <= i < j < |t|
      ensures FastLess(t[i].name, t[j].name)
    {
      if i == 0 {
        assert t[j] == u[j - 1] && u[j - 1] in u;
      } else {
        assert t[i] == u[i - 1] && t[j] == u[j - 1];
      }
    }
  }

  /** The first key of an ordered registry is below all the others, which
      are ordered. */
  lemma OrderedTail(r: seq<Property>)
    requires Ordered(r) && r != []
    ensures Ordered(r[1..])
    ensures forall q :: q in r[1..] ==> FastLess(r[0].name, q.name)
  {
    forall q | q in r[1..]
      ensures FastLess(r[0].name, q.name)
    {
      var k :| 0 <= k < |r[1..]| && r[1..][k] == q;
      assert r[k + 1] == q;
    }
  }

  /** Inserting a new name keeps the registry ordered, adds exactly that
      property, and changes find only for that name. */
  lemma {:induction false} InsertSpec(r: seq<Property>, p: Property)
    requires Ordered(r) && p.name !in Names(r)
    ensures var t := Insert(r, p);
            && Ordered(t) && |t| == |r| + 1
            && (forall q :: q in t <==> q == p || q in r)
            && Names(t) == Names(r) + {p.name}
  {
    if r == [] {
      assert Insert(r, p) == [p];
    } else {
      OrderedTail(r);
      assert forall q :: q in r <==> q == r[0] || q in r[1..];
      if FastLess(p.name, r[0].name) {
        forall q | q in r
          ensures FastLess(p.name, q.name)
        {
          if q != r[0] {
            FastLessTransitive(p.name, r[0].name, q.name);
          }
        }
        ConsOrdered(p, r);
      } else {
        assert r[0].name != p.name;
        FastLessTotal(r[0].name, p.name);
        assert Names(r) == {r[0].name} + Names(r[1..]);
        InsertSpec(r[1..], p);
        var u := Insert(r[1..], p);
        assert Insert(r, p) == [r[0]] + u;
        ConsOrdered(r[0], u);
      }
    }
  }

  /** After inserting a new name, find gives the new property for that
      name and what it gave before for every other name. */
  lemma InsertLookup(r: seq<Property>, p: Property, name: seq<utf32>)
    requires Ordered(r) && p.name !in Names(r)
    ensures Lookup(Insert(r, p), name) == if name == p.name then Some(p) else Lookup(r, name)
  {
    InsertSpec(r, p);
    var t := Insert(r, p);
    LookupFinds(t, name);
    LookupFinds(r, name);
    if name == p.name {
      LookupUnique(t, p);
    } else if Lookup(r, name).Some? {
      LookupUnique(t, Lookup(r, name).value);
    }
  }

  /** d_properties.erase(pos) for the entry of `name`, if any. */
  function Remove(r: seq<Property>, name: seq<utf32>): seq<Property>
  {
    if r == [] then []
    else if r[0].name == name then Remove(r[1..], name)
    else [r[0]] + Remove(r[1..], name)
  }

  /** Removing a name keeps every entry of another name and no entry of
      that name. */
  lemma {:induction false} RemoveKeeps(r: seq<Property>, name: seq<utf32>)
    ensures forall q :: q in Remove(r, name) <==> q in r && q.name != name
    ensures Names(Remove(r, name)) == Names(r) - {name}
  {
    if r != [] {
      RemoveKeeps(r[1..], name);
      assert forall q :: q in r <==> q == r[0] || q in r[1..];
      if r[0].name != name {
        assert Remove(r, name) == [r[0]] + Remove(r[1..], name);
      }
    }
  }

  /** Removing a name keeps the registry ordered. */
  lemma {:induction false} RemoveOrdered(r: seq<Property>, name: seq<utf32>)
    requires Ordered(r)
    ensures Ordered(Remove(r, name))
  {
    if r != [] {
      OrderedTail(r);
      RemoveOrdered(r[1..], name);
      if r[0].name != name {
        RemoveKeeps(r[1..], name);
        ConsOrdered(r[0], Remove(r[1..], name));
      }
    }
  }

  /** After removing a name, find fails for it and is unchanged for every
      other name. */
  lemma RemoveLookup(r: seq<Property>, name: seq<utf32>, other: seq<utf32>)
    requires Ordered(r)
    ensures Lookup(Remove(r, name), other) == if other == name then None else Lookup(r, other)
  {
    RemoveKeeps(r, name);
    RemoveOrdered(r, name);
    var t := Remove(r, name);
    LookupFinds(t, other);
    LookupFinds(r, other);
    if other != name && Lookup(r, other).Some? {
      LookupUnique(t, Lookup(r, other).value);
    }
  }

  /** The map's (key, mapped value) entries in iteration order. */
  function Entries(r: seq<Property>): (e: seq<(seq<utf32>, Property)>)
    ensures |e| == |r|
    ensures forall i :: 0 <= i < |r| ==> e[i] == (r[i].name, r[i])
  {
    seq(|r|, i requires 0 <= i < |r| => (r[i].name, r[i]))
  }

  class PropertySet {
    /** d_properties */
    var registry: seq<Property>
    /** The PropertyReceiver this set is: the values its properties hold. */
    var receiver: ReceiverState

    ghost predicate Valid()
      reads this
    {
      Ordered(registry)
    }

    /** PropertySet(): an empty registry. */
    constructor()
      ensures Valid() && registry == [] && receiver == map[]
    {
      registry := [];
      receiver := map[];
    }

    /** addProperty(property): NullObject for a null pointer,
        AlreadyExists for a name already registered; otherwise the registry
        gains exactly that property under its name. */
    method AddProperty(property: Option<Property>) returns (r: Outcome)
      requires Valid()
      modifies this
      ensures Valid() && receiver == old(receiver)
      ensures property.None? ==> r == Failure(NullObject) && registry == old(registry)
      ensures property.Some? && property.value.name in old(Names(registry)) ==>
                r == Failure(AlreadyExists) && registry == old(registry)
      ensures property.Some? && property.value.name !in old(Names(registry)) ==>
                && r == Success
                && registry == Insert(old(registry), property.value)
                && Names(registry) == old(Names(registry)) + {property.value.name}
                && Lookup(registry, property.value.name) == Some(property.value)
                && forall n :: n != property.value.name ==> Lookup(registry, n) == old(Lookup(registry, n))
    {
      if property.None? {
        return Failure(NullObject);
      }
      var p := property.value;
      LookupFinds(registry, p.name);
      if Lookup(registry, p.name).Some? {
        return Failure(AlreadyExists);
      }
      InsertSpec(registry, p);
      forall n {
        InsertLookup(registry, p, n);
      }
      registry := Insert(registry, p);
      return Success;
    }

    /** removeProperty(name): erases the entry if present; otherwise
        nothing changes. */
    method RemoveProperty(name: seq<utf32>)
      requires Valid()
      modifies this
      ensures Valid() && receiver == old(receiver)
      ensures registry == Remove(old(registry), name)
      ensures Names(registry) == old(Names(registry)) - {name}
      ensures forall n :: Lookup(registry, n) == if n == name then None else old(Lookup(registry, n))
      ensures name !in old(Names(registry)) ==> registry == old(registry)
    {
      RemoveKeeps(registry, name);
      RemoveOrdered(registry, name);
      forall n {
        RemoveLookup(registry, name, n);
      }
      RemoveAbsent(registry, name);
      registry := Remove(registry, name);
    }

    /** clearProperties(): the registry is emptied. */
    method ClearProperties()
      modifies this
      ensures Valid() && registry == [] && receiver == old(receiver)
    {
      registry := [];
    }

    /** isPropertyPresent(name): find does not return end(). */
    function IsPropertyPresent(name: seq<utf32>): (r: bool)
      reads this
      ensures r <==> name in Names(registry)
    {
      LookupFinds(registry, name);
      Lookup(registry, name).Some?
    }

    /** getPropertyHelp(name): UnknownObject for an unregistered name;
        otherwise the help of the property registered under it. */
    function GetPropertyHelp(name: seq<utf32>): (r: Result<seq<utf32>>)
      reads this
      ensures r.Ok? <==> name in Names(registry)
      ensures r.Fail? ==> r.error == UnknownObject
      ensures r.Ok? ==> exists p :: p in registry && p.name == name && r.value == p.help
    {
      LookupFinds(registry, name);
      match Lookup(registry, name)
      case None => Fail(UnknownObject)
      case Some(p) => Ok(p.help)
    }

    /** getProperty(name): UnknownObject for an unregistered name;
        otherwise the registered property's get(this). */
    function GetProperty(name: seq<utf32>): (r: Result<seq<utf32>>)
      reads this
      ensures r.Ok? <==> name in Names(registry)
      ensures r.Fail? ==> r.error == UnknownObject
      ensures r.Ok? ==> exists p :: p in registry && p.name == name && r.value == Get(p, receiver)
    {
      LookupFinds(registry, name);
      match Lookup(registry, name)
      case None => Fail(UnknownObject)
      case Some(p) => Ok(Get(p, receiver))
    }

    /** setProperty(name, value): UnknownObject for an unregistered name;
        otherwise the registered property's set(this, value).  The registry
        itself never changes. */
    method SetProperty(name: seq<utf32>, value: seq<utf32>) returns (r: Outcome)
      requires Valid()
      modifies this
      ensures Valid() && registry == old(registry)
      ensures name !in Names(registry) ==> r == Failure(UnknownObject) && receiver == old(receiver)
      ensures name in Names(registry) ==>
                && r == Success
                && receiver == old(receiver)[name := value]
                && GetProperty(name) == Ok(value)
    {
      LookupFinds(registry, name);
      match Lookup(registry, name)
      case None =>
        return Failure(UnknownObject);
      case Some(p) =>
        receiver := Set(p, receiver, value);
        GetAfterSet(p, p, old(receiver), value);
        return Success;
    }

    /** isPropertyDefault(name): UnknownObject for an unregistered name;
        otherwise the registered property's isDefault(this). */
    function IsPropertyDefault(name: seq<utf32>): (r: Result<bool>)
      reads this
      ensures r.Ok? <==> name in Names(registry)
      ensures r.Fail? ==> r.error == UnknownObject
      ensures r.Ok? ==> exists p :: p in registry && p.name == name && r.value == (Get(p, receiver) == p.default)
    {
      LookupFinds(registry, name);
      match Lookup(registry, name)
      case None => Fail(UnknownObject)
      case Some(p) => Ok(IsDefault(p, receiver))
    }

    /** getPropertyDefault(name): UnknownObject for an unregistered name;
        otherwise the registered property's getDefault(this). */
    function GetPropertyDefault(name: seq<utf32>): (r: Result<seq<utf32>>)
      reads this
      ensures r.Ok? <==> name in Names(registry)
      ensures r.Fail? ==> r.error == UnknownObject
      ensures r.Ok? ==> exists p :: p in registry && p.name == name && r.value == p.default
    {
      LookupFinds(registry, name);
      match Lookup(registry, name)
      case None => Fail(UnknownObject)
      case Some(p) => Ok(GetDefault(p, this.receiver))
    }

    /** getIterator(): an iterator over the whole registry, at its start;
        it visits every registered name once, in FastLess order. */
    method GetIterator() returns (it: ConstBaseIterator<seq<utf32>, Property>)
      requires Valid()
      ensures fresh(it) && it.Valid() && it.IsAtStart()
      ensures it.entries == Entries(registry) && it.start == 0 && it.end == |registry|
      ensures forall i, j :: 0 <= i < j < |it.entries| ==> FastLess(it.entries[i].0, it.entries[j].0)
      ensures forall n :: n in Names(registry) <==> exists i :: 0 <= i < |it.entries| && it.entries[i].0 == n
    {
      it := new ConstBaseIterator<seq<utf32>, Property>(Entries(registry), 0, |registry|);
      forall n | n in Names(registry)
        ensures exists i :: 0 <= i < |it.entries| && it.entries[i].0 == n
      {
        var p :| p in registry && p.name == n;
        var i :| 0 <= i < |registry| && registry[i] == p;
        assert it.entries[i].0 == n;
      }
    }
  }

  /** Removing an absent name leaves the registry as it was. */
  lemma {:induction false} RemoveAbsent(r: seq<Property>, name: seq<utf32>)
    ensures name !in Names(r) ==> Remove(r, name) == r
  {
    if r != [] {
      assert Names(r) == {r[0].name} + Names(r[1..]);
      RemoveAbsent(r[1..], name);
    }
  }

  /** Registering a property, then setting it through the set, makes the
      set report that value, and reports the default exactly when the value
      is the default string. */
  method SetThenQuery() returns (value: Result<seq<utf32>>, atDefault: Result<bool>,
                                 missing: Result<seq<utf32>>)
    ensures value == Ok([0x31]) && atDefault == Ok(false) && missing == Fail(UnknownObject)
  {
    var props := new PropertySet();
    var p := Property([0x41], [], [0x30], true);
    var added := props.AddProperty(Some(p));
    var _ := props.SetProperty([0x41], [0x31]);
    value := props.GetProperty([0x41]);
    atDefault := props.IsPropertyDefault([0x41]);
    missing := props.GetProperty([0x42]);
    LookupUnique(props.registry, p);
  }
}
