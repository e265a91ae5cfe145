// RefCounted<T>: a handle to an object shared with other handles through a
// counter they all point at.  The last handle to let go deletes both.

module RefCounting {
  import opened Errors

  /** The shared counter `*d_count`; `deleted` records that `delete` was
      applied to it and to the object it counts. */
  class Counter {
    var count: nat
    var deleted: bool

    /** new unsigned int(1) */
    constructor()
      ensures count == 1 && !deleted
    {
      count := 1;
      deleted := false;
    }
  }

  class RefCounted<T(==)> {
    /** d_object: the pointee, None for a null pointer. */
    var pointee: Option<T>
    /** d_count: the shared counter, null exactly when there is no pointee. */
    var counter: Counter?

    /** A handle either points at nothing and has no counter, or points at
        an object whose live counter it shares. */
    ghost predicate Valid()
      reads this, counter
    {
      && (pointee.Some? <==> counter != null)
      && (counter != null ==> counter.count >= 1 && !counter.deleted)
    }

    /** RefCounted(): the null handle. */
    constructor Null()
      ensures Valid() && pointee == None && counter == null
    {
      pointee := None;
      counter := null;
    }

    /** RefCounted(ob): a fresh counter of 1 for a non-null pointer, none
        for a null one. */
    constructor Of(ob: Option<T>)
      ensures Valid() && pointee == ob
      ensures ob.Some? ==> fresh(counter) && counter.count == 1
      ensures ob.None? ==> counter == null
    {
      pointee := ob;
      if ob.Some? {
        counter := new Counter();
      } else {
        counter := null;
      }
    }

    /** RefCounted(other): shares the pointee and the counter, and counts
        one more handle. */
    constructor Copy(other: RefCounted<T>)
      requires other.Valid()
      modifies other.counter
      ensures Valid() && pointee == other.pointee && counter == other.counter
      ensures counter != null ==> counter.count == old(other.counter.count) + 1
    {
      pointee := other.pointee;
      counter := other.counter;
      new;
      if counter != null {
        AddRef();
      }
    }

    /** addRef(): ++*d_count. */
    method AddRef()
      requires counter != null
      modifies counter
      ensures counter.count == old(counter.count) + 1
      ensures counter.deleted == old(counter.deleted)
    {
      counter.count := counter.count + 1;
    }

    /** release(): --*d_count; at zero the pointee and the counter are
        deleted and the handle is cleared. */
    method Release()
      requires counter != null && counter.count >= 1
      modifies this, counter
      ensures old(counter).count == old(counter.count) - 1
      ensures old(counter).deleted == (old(counter.deleted) || old(counter.count) == 1)
      ensures old(counter.count) == 1 ==> pointee == None && counter == null
      ensures old(counter.count) > 1 ==> pointee == old(pointee) && counter == old(counter)
    {
      counter.count := counter.count - 1;
      if counter.count == 0 {
        counter.deleted := true;
        pointee := None;
        counter := null;
      }
    }

    /** ~RefCounted(): a handle with a pointee releases it. */
    method Destroy()
      requires Valid()
      modifies this, counter
      ensures old(pointee).None? ==> pointee == None && counter == null
      ensures old(pointee).Some? ==>
                && old(counter).count == old(counter.count) - 1
                && (old(counter).deleted <==> old(counter.count) == 1)
    {
      if pointee.Some? {
        Release();
      }
    }

    /** operator=(other): a no-op when both point at the same object;
        otherwise the old pointee is released first, then the new one is
        shared and counted.  Handles of different objects never share a
        counter. */
    method Assign(other: RefCounted<T>)
      requires Valid() && other.Valid()
      requires pointee != other.pointee ==> counter != other.counter
      modifies this, counter, other.counter
      ensures Valid()
      ensures old(pointee) == old(other.pointee) ==>
                && pointee == old(pointee) && counter == old(counter)
                && (counter != null ==> counter.count == old(counter.count))
      ensures old(pointee) != old(other.pointee) ==>
                && pointee == old(other.pointee) && counter == old(other.counter)
                && (counter != null ==> counter.count == old(other.counter.count) + 1)
                && (old(counter) != null ==>
                      && old(counter).count == old(counter.count) - 1
                      && (old(counter).deleted <==> old(counter.count) == 1))
    {
      if pointee != other.pointee {
        if pointee.Some? {
          Release();
        }
        pointee := other.pointee;
        counter := if pointee.Some? then other.counter else null;
        if counter != null {
          AddRef();
        }
      }
    }

    /** operator==: the same pointee; operator!= is its negation.  A
        handle equals itself, and equal handles are both valid or both
        null. */
    function SameObject(other: RefCounted<T>): (r: bool)
      reads this, other
      ensures this == other ==> r
      ensures r ==> (IsValid() <==> other.IsValid())
    {
      pointee == other.pointee
    }

    /** isValid(): the pointer is not null, which in a valid handle is
        exactly when a counter is held. */
    function IsValid(): (r: bool)
      reads this
      ensures Valid() ==> (r <==> counter != null)
      ensures Valid() && r ==> counter.count >= 1 && !counter.deleted
    {
      pointee.Some?
    }
  }

  /** Two handles of one object share its counter: copying the first counts
      2, destroying the copy counts 1 and deletes nothing, destroying the
      original deletes the object. */
  method SharedLifetime() returns (afterCopy: nat, afterOne: nat, deletedAfterOne: bool,
                                   deletedAfterBoth: bool)
    ensures afterCopy == 2 && afterOne == 1
    ensures !deletedAfterOne && deletedAfterBoth
  {
    var a := new RefCounted<int>.Of(Some(7));
    var c := a.counter;
    var b := new RefCounted<int>.Copy(a);
    afterCopy := c.count;
    b.Destroy();
    afterOne, deletedAfterOne := c.count, c.deleted;
    a.Destroy();
    deletedAfterBoth := c.deleted;
  }
}
