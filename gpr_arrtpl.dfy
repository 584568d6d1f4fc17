/**
 * The minimal templated array of gpr_arrtpl.h: a size, a capacity and a
 * block of `capacity` elements, with only init and free. Whether the
 * template defines a member deallocator (GPR_ARRTPL_DEALLOC_MEMBER) is a
 * constant of the record; its calls are logged as the slot indices they
 * receive, in call order. The block is a Dafny array, null for NULL.
 */
module ArrTpl {
  import opened ArrayTp

  class ArrTpl<T(0)> {
    const hasDeallocMember: bool
    var size: nat
    var capacity: nat
    var store: array?<T>

    /** Size within capacity, and a block of exactly `capacity` elements, NULL only for capacity 0. */
    ghost predicate Valid()
      reads this
    {
      size <= capacity &&
      (store == null <==> capacity == 0) &&
      (store != null ==> store.Length == capacity)
    }

    constructor (hasDeallocMember: bool)
      ensures this.hasDeallocMember == hasDeallocMember
      ensures size == 0 && capacity == 0 && store == null && Valid()
    {
      this.hasDeallocMember := hasDeallocMember;
      size := 0;
      capacity := 0;
      store := null;
    }

    /**
     * init: size 0 and the requested capacity. Capacity 0 gives a NULL
     * block and success; otherwise a fresh block, and false when its
     * allocation fails (the record then still claims the capacity).
     */
    method Init(c: nat, allocOk: bool) returns (ok: bool)
      modifies this
      ensures size == 0 && capacity == c
      ensures ok <==> c == 0 || allocOk
      ensures c == 0 ==> store == null
      ensures ok ==> Valid()
      ensures c > 0 && ok ==> store != null && fresh(store)
      ensures !ok ==> store == null
    {
      size := 0;
      capacity := c;
      if capacity == 0 {
        store := null;
      } else {
        if !allocOk {
          store := null;
          return false;
        }
        store := new T[c];
      }
      return true;
    }

    /**
     * free: nothing for capacity 0; otherwise each of the `size` live
     * members goes to the member deallocator (when one is defined), in
     * slot order, before the block itself is released.
     */
    method Free() returns (freed: seq<int>)
      ensures capacity == 0 ==> freed == []
      ensures capacity != 0 && hasDeallocMember ==> freed == Up(0, size)
      ensures !hasDeallocMember ==> freed == []
    {
      freed := [];
      if capacity != 0 && hasDeallocMember {
        freed := CountUp(0, size);
      }
    }
  }

  /** The unit test: init with capacity 5 succeeds and leaves no member for free to release. */
  method InitThenFree(hasDeallocMember: bool) returns (ok: bool, capacity: nat, freed: seq<int>)
    ensures ok && capacity == 5 && freed == []
  {
    var arr := new ArrTpl<int>(hasDeallocMember);
    ok := arr.Init(5, true);
    capacity := arr.capacity;
    freed := arr.Free();
  }
}
