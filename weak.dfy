/**
 * Weak pointers of src/util/weak.cpp and src/util/weak.h. A process-wide
 * registry maps ids to live objects; an object registers itself when it is
 * built and deregisters when it is destroyed, and a weak pointer holds only
 * the id, so it reads as null once the object is gone. The static singleton
 * is passed explicitly as a WeakRegistry object.
 */
module Weak {
  /** Registry ids: next_id starts at 1, and a weak pointer uses 0 for null. */
  type Id = n: nat | n >= 1 witness 1

  class WeakRegistry {
    var nextId: Id
    var entries: map<Id, WeakPointable>

    /** Every registered id was handed out before next_id. */
    ghost predicate Valid()
      reads this
    {
      forall id :: id in entries ==> id < nextId
    }

    constructor ()
      ensures Valid() && nextId == 1 && entries == map[]
    {
      nextId := 1;
      entries := map[];
    }

    /**
     * enregister: stores p under next_id, which is never in use (the
     * emplace assertion holds), and returns it before incrementing.
     */
    method Enregister(p: WeakPointable) returns (id: Id)
      requires Valid()
      modifies this
      ensures Valid()
      ensures id == old(nextId) && id !in old(entries)
      ensures nextId == id + 1 && entries == old(entries)[id := p]
    {
      assert nextId !in entries;
      entries := entries[nextId := p];
      id := nextId;
      nextId := nextId + 1;
    }

    /** deregister: erases id, if present; next_id is never reused. */
    method Deregister(id: nat)
      requires Valid()
      modifies this
      ensures Valid()
      ensures entries == old(entries) - {id} && nextId == old(nextId)
    {
      entries := entries - {id};
    }

    /** find: the registered object, or null for an id never or no longer registered. */
    function Find(id: nat): (p: WeakPointable?)
      reads this
      ensures p != null <==> id in entries
      ensures id in entries ==> p == entries[id]
    {
      if id in entries then entries[id] else null
    }
  }

  class WeakPointable {
    const weakId: Id

    /** The constructor registers the new object under a fresh id. */
    constructor (reg: WeakRegistry)
      requires reg.Valid()
      modifies reg
      ensures reg.Valid()
      ensures weakId == old(reg.nextId) && weakId !in old(reg.entries)
      ensures reg.entries == old(reg.entries)[weakId := this] && reg.nextId == weakId + 1
    {
      weakId := reg.nextId;
      new;
      var id := reg.Enregister(this);
    }

    /** The destructor deregisters the object's id. */
    method Destroy(reg: WeakRegistry)
      requires reg.Valid()
      modifies reg
      ensures reg.Valid()
      ensures reg.entries == old(reg.entries) - {weakId} && reg.nextId == old(reg.nextId)
    {
      reg.Deregister(weakId);
    }
  }

  /** WeakPtr<T>: only the id of the object, 0 for a null pointer. */
  datatype WeakPtr = WeakPtr(id: nat)
  {
    /** The conversion to T*: null for id 0, else what get_strong_ptr(id), that is find(id), gives. */
    function Get(reg: WeakRegistry): (p: WeakPointable?)
      reads reg
      ensures id == 0 ==> p == null
      ensures id != 0 ==> p == reg.Find(id)
    {
      if id == 0 then null else reg.Find(id)
    }

    /** explicit operator bool: whether the object is still alive. */
    predicate IsLive(reg: WeakRegistry)
      reads reg
    {
      Get(reg) != null
    }
  }

  /** The WeakPtr constructor from a pointer: the object's id, or 0 for null. */
  function FromPointer(p: WeakPointable?): (w: WeakPtr)
    ensures w.id == 0 <==> p == null
    ensures p != null ==> w.id == p.weakId
  {
    if p == null then WeakPtr(0) else WeakPtr(p.weakId)
  }

  /** A weak pointer to a registered object yields that object. */
  lemma PointerToRegistered(reg: WeakRegistry, p: WeakPointable)
    requires p.weakId in reg.entries && reg.entries[p.weakId] == p
    ensures FromPointer(p).Get(reg) == p
  {
  }

  /**
   * The util/weak test: a default WeakPtr is false; one taken from a live
   * object yields that object; after the object is deleted it is false.
   */
  method WeakPtrLifetime() returns (defaultLive: bool, whileAlive: bool, yieldsIt: bool, afterDelete: bool)
    ensures !defaultLive && whileAlive && yieldsIt && !afterDelete
  {
    var reg := new WeakRegistry();
    var foo := new WeakPointable(reg);
    var ptr := WeakPtr(0);
    defaultLive := ptr.IsLive(reg);
    ptr := FromPointer(foo);
    whileAlive := ptr.IsLive(reg);
    yieldsIt := ptr.Get(reg) == foo;
    foo.Destroy(reg);
    afterDelete := ptr.IsLive(reg);
  }

  /** Ids handed out by two registrations differ: every object keeps its own slot. */
  method DistinctIds() returns (first: Id, second: Id, firstStillThere: bool)
    ensures first != second && firstStillThere
  {
    var reg := new WeakRegistry();
    var a := new WeakPointable(reg);
    var b := new WeakPointable(reg);
    first, second := a.weakId, b.weakId;
    firstStillThere := reg.Find(first) == a;
  }
}
