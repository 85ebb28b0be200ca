/** The table of Java objects that C code refers to by number (java/CRunTime.java). */
module ObjectRepository {
  class Object {
  }

  class Repository {
    var objectRepository: array<Object?>
    var firstFree: int
    var maxRepositoryObjects: int

    /** The handles given out and not given back, with the objects they were given out for. */
    ghost var live: map<int, Object>

    ghost predicate Valid()
      reads this, objectRepository
    {
      objectRepository.Length == maxRepositoryObjects && 2 <= firstFree < maxRepositoryObjects &&
      firstFree !in live && NoHoles(objectRepository[..], firstFree) && Denotes(objectRepository[..], live)
    }

    /** `CRunTime.init` leaves the first two handles unused. */
    constructor (size: nat)
      requires size > 2
      ensures Valid() && fresh(objectRepository) && live == map[]
    {
      objectRepository := new Object?[size](_ => null);
      firstFree := 2;
      maxRepositoryObjects := size;
      live := map[];
    }

    /** `getRegisteredObject`, for a live handle: its object. */
    function GetRegisteredObject(handle: int): (out: Object?)
      requires Valid() && handle in live
      reads this, objectRepository
      ensures out == live[handle]
    {
      assert 2 <= handle < objectRepository.Length && objectRepository[..][handle] == live[handle];
      objectRepository[handle]
    }

    /** `registerObject`: a handle that nobody holds, never 0 or 1; null gets 0.  All other handles keep their
        objects, even when the table grows. */
    method RegisterObject(obj: Object?) returns (ret: int)
      requires Valid()
      modifies this, objectRepository
      ensures Valid() && (objectRepository == old(objectRepository) || fresh(objectRepository))
      ensures obj == null ==> ret == 0 && live == old(live)
      ensures obj != null ==> ret >= 2 && ret !in old(live) && live == old(live)[ret := obj]
    {
      ret := firstFree;
      if obj == null {
        return 0;
      }
      ghost var before := objectRepository[..];
      objectRepository[ret] := obj;
      ghost var filled := objectRepository[..];
      FilledDenotes(before, live, ret, obj);
      var i := firstFree;
      while i < objectRepository.Length
        invariant live == old(live) && firstFree == old(firstFree) && maxRepositoryObjects == old(maxRepositoryObjects)
        invariant objectRepository == old(objectRepository) && objectRepository[..] == filled
        invariant firstFree <= i <= objectRepository.Length && NoHoles(filled, i) && (i > firstFree || filled[i] != null)
      {
        if objectRepository[i] == null {
          firstFree := i;
          live := live[ret := obj];
          return;
        }
        i := i + 1;
      }
      maxRepositoryObjects := maxRepositoryObjects * 2;
      var tmp := new Object?[maxRepositoryObjects](_ => null);
      i := 0;
      while i < objectRepository.Length
        invariant live == old(live) && firstFree == old(firstFree) && maxRepositoryObjects == tmp.Length
        invariant objectRepository == old(objectRepository) && objectRepository[..] == filled
        invariant 0 <= i <= objectRepository.Length
        invariant forall k :: 0 <= k < i ==> tmp[k] == filled[k]
      {
        tmp[i] := objectRepository[i];
        i := i + 1;
      }
      tmp[i] := obj;
      GrownDenotes(filled, tmp[..], live, ret, i, obj);
      objectRepository := tmp;
      ret := i;
      live := live[ret := obj];
    }

    /** `deRegisterObject`, for a live handle. */
    method DeRegisterObject(handle: int) returns (out: Object?)
      requires Valid() && handle in live
      modifies this, objectRepository
      ensures Valid() && objectRepository == old(objectRepository)
      ensures out == old(live)[handle] && live == old(live) - {handle}
    {
      out := GetRegisteredObject(handle);
      ghost var before := objectRepository[..];
      assert 2 <= handle < |before|;
      if firstFree > handle {
        firstFree := handle;
      }
      objectRepository[handle] := null;
      live := live - {handle};
    }
  }

  /** No slot below `n` is free. */
  ghost predicate NoHoles(table: seq<Object?>, n: int) {
    forall k :: 2 <= k < n && k < |table| ==> table[k] != null
  }

  /** Every live handle denotes its object. */
  ghost predicate Denotes(table: seq<Object?>, live: map<int, Object>) {
    forall h :: h in live ==> 2 <= h < |table| && table[h] == live[h]
  }

  lemma FilledDenotes(table: seq<Object?>, live: map<int, Object>, k: nat, obj: Object)
    requires Denotes(table, live) && 2 <= k < |table| && k !in live && NoHoles(table, k)
    ensures Denotes(table[k := obj], live[k := obj]) && Denotes(table[k := obj], live) && NoHoles(table[k := obj], k)
  {}

  /** Growth copies the table and puts the object at the first new slot; the slot it was first put in keeps a
      second reference, under no live handle. */
  lemma GrownDenotes(table: seq<Object?>, grown: seq<Object?>, live: map<int, Object>, stale: nat, k: nat, obj: Object)
    requires Denotes(table, live) && NoHoles(table, k) && k == |table| < |grown| && 2 <= stale < k && stale !in live
    requires (forall i :: 0 <= i < k ==> grown[i] == table[i]) && grown[k] == obj
    ensures Denotes(grown, live[k := obj]) && NoHoles(grown, stale) && k !in live
  {}
}
