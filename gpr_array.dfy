/**
 * The pointer array (`struct gpr_array`): a heap block of `void *` that is
 * reallocated to exactly `size` slots by every operation. The block is
 * modelled by its contents, `elem`; it is NULL exactly when it is empty.
 * `allocOk` is whether the realloc of the operation succeeds, `hasFree`
 * whether an element destructor was passed, and `freed` lists the
 * elements handed to it, in call order.
 */
module PtrArray {
  import opened CTypes
  import opened GprErr
  import opened Sequences

  class PtrArray {
    var size: nat
    var elem: seq<Ptr>

    /** One slot per element, and no slot holds NULL (every insertion refuses NULL). */
    ghost predicate Valid()
      reads this
    {
      |elem| == size && forall i :: 0 <= i < |elem| ==> elem[i] != NULL
    }

    /** A fresh, initialised array: what gpr_array_new returns when its malloc succeeds (see New). */
    constructor ()
      ensures Valid() && elem == []
    {
      size := 0;
      elem := [];
    }

    /** gpr_array_init: size 0, no storage. */
    method Init()
      modifies this
      ensures Valid() && size == 0 && elem == []
    {
      size := 0;
      elem := [];
    }

    /** gpr_array_reset: every element goes to the destructor, then size 0 and no storage. */
    method Reset(hasFree: bool) returns (freed: seq<Ptr>)
      requires Valid()
      modifies this
      ensures Valid() && elem == []
      ensures freed == if hasFree then old(elem) else []
    {
      freed := [];
      var index := 0;
      while index < size
        invariant index <= size
        invariant freed == if hasFree then elem[..index] else []
      {
        if elem[index] != NULL && hasFree {
          freed := freed + [elem[index]];
        }
        index := index + 1;
      }
      size := 0;
      elem := [];
    }

    /** gpr_array_push_front. */
    method PushFront(e: Ptr, allocOk: bool) returns (err: Err)
      requires Valid() && e != NULL
      modifies this
      ensures Valid()
      ensures allocOk ==> err == Ok && elem == [e] + old(elem)
      ensures !allocOk ==> err == MemoryFailure && elem == old(elem)
    {
      if !allocOk {
        return MemoryFailure;
      }
      elem := [e] + elem;
      size := size + 1;
      return Ok;
    }

    /** gpr_array_push_back. */
    method PushBack(e: Ptr, allocOk: bool) returns (err: Err)
      requires Valid() && e != NULL
      modifies this
      ensures Valid()
      ensures allocOk ==> err == Ok && elem == old(elem) + [e]
      ensures !allocOk ==> err == MemoryFailure && elem == old(elem)
    {
      if !allocOk {
        return MemoryFailure;
      }
      elem := elem + [e];
      size := size + 1;
      return Ok;
    }

    /** gpr_array_insert: index 0 and index `size` are the two pushes. */
    method Insert(e: Ptr, index: nat, allocOk: bool) returns (err: Err)
      requires Valid() && e != NULL
      requires index <= size
      modifies this
      ensures Valid()
      ensures allocOk ==> err == Ok && elem == InsertAt(old(elem), index, e)
      ensures !allocOk ==> err == MemoryFailure && elem == old(elem)
    {
      EndsAreFrontAndBack(elem, e);
      if index == 0 {
        err := PushFront(e, allocOk);
        return;
      }
      if index == size {
        err := PushBack(e, allocOk);
        return;
      }
      if !allocOk {
        return MemoryFailure;
      }
      elem := elem[..index] + [e] + elem[index..];
      size := size + 1;
      return Ok;
    }

    /**
     * gpr_array_pop_front: KO on an empty array; a one-element array is
     * reset. A failed shrinking realloc is reported although the element
     * is already gone.
     */
    method PopFront(hasFree: bool, allocOk: bool) returns (err: Err, freed: seq<Ptr>)
      requires Valid()
      modifies this
      ensures Valid()
      ensures old(size) == 0 ==> err == Ko && elem == old(elem) && freed == []
      ensures old(size) > 0 ==> elem == old(elem[1..]) && freed == (if hasFree then [old(elem[0])] else [])
      ensures old(size) > 0 ==> err == (if allocOk || old(size) == 1 then Ok else MemoryFailure)
    {
      if size == 0 {
        return Ko, [];
      }
      if size == 1 {
        freed := Reset(hasFree);
        return Ok, freed;
      }
      freed := if hasFree then [elem[0]] else [];
      size := size - 1;
      elem := elem[1..];
      if !allocOk {
        return MemoryFailure, freed;
      }
      return Ok, freed;
    }

    /** gpr_array_pop_back: as pop_front, at the other end. */
    method PopBack(hasFree: bool, allocOk: bool) returns (err: Err, freed: seq<Ptr>)
      requires Valid()
      modifies this
      ensures Valid()
      ensures old(size) == 0 ==> err == Ko && elem == old(elem) && freed == []
      ensures old(size) > 0 ==> elem == old(elem)[..old(size) - 1] && freed == (if hasFree then [old(elem)[old(size) - 1]] else [])
      ensures old(size) > 0 ==> err == (if allocOk || old(size) == 1 then Ok else MemoryFailure)
    {
      if size == 0 {
        return Ko, [];
      }
      if size == 1 {
        freed := Reset(hasFree);
        return Ok, freed;
      }
      freed := if hasFree then [elem[size - 1]] else [];
      size := size - 1;
      elem := elem[..size];
      if !allocOk {
        return MemoryFailure, freed;
      }
      return Ok, freed;
    }

    /**
     * gpr_array_remove: KO on an empty array; index 0 and the last index
     * are the two pops.
     */
    method Remove(hasFree: bool, index: nat, allocOk: bool) returns (err: Err, freed: seq<Ptr>)
      requires Valid()
      requires index < size || size == 0
      modifies this
      ensures Valid()
      ensures old(size) == 0 ==> err == Ko && elem == old(elem) && freed == []
      ensures old(size) > 0 ==> elem == RemoveAt(old(elem), index) && freed == (if hasFree then [old(elem[index])] else [])
      ensures old(size) > 0 ==> err == (if allocOk || old(size) == 1 then Ok else MemoryFailure)
    {
      if size == 0 {
        err, freed := Ko, [];
      } else if index == 0 {
        EndsAreFrontAndBack(elem, elem[0]);
        err, freed := PopFront(hasFree, allocOk);
      } else if index == size - 1 {
        EndsAreFrontAndBack(elem, elem[0]);
        err, freed := PopBack(hasFree, allocOk);
      } else {
        freed := if hasFree then [elem[index]] else [];
        size := size - 1;
        elem := elem[..index] + elem[index + 1..];
        err := if allocOk then Ok else MemoryFailure;
      }
    }

    /** gpr_array_replace: KO on an empty array; otherwise only slot `index` changes. */
    method Replace(hasFree: bool, e: Ptr, index: nat) returns (err: Err, freed: seq<Ptr>)
      requires Valid() && e != NULL
      requires index < size || size == 0
      modifies this
      ensures Valid()
      ensures old(size) == 0 ==> err == Ko && elem == old(elem) && freed == []
      ensures old(size) > 0 ==> err == Ok && elem == old(elem)[index := e] && freed == (if hasFree then [old(elem[index])] else [])
    {
      if size == 0 {
        return Ko, [];
      }
      freed := if hasFree then [elem[index]] else [];
      elem := elem[index := e];
      return Ok, freed;
    }

    /**
     * gpr_array_search: the first element the predicate accepts and its
     * index; NULL and index 0 when none does. The search context is folded
     * into `p`.
     */
    method Search(p: Ptr -> bool) returns (found: Ptr, index: nat)
      requires Valid()
      ensures index == (if FirstIndex(elem, p) < size then FirstIndex(elem, p) else 0)
      ensures found == NULL <==> forall i :: 0 <= i < size ==> !p(elem[i])
      ensures found != NULL ==> index < size && found == elem[index] && p(found)
    {
      var counter := 0;
      while counter < size
        invariant counter <= size
        invariant forall k :: 0 <= k < counter ==> !p(elem[k])
      {
        if p(elem[counter]) {
          return elem[counter], counter;
        }
        counter := counter + 1;
      }
      return NULL, 0;
    }

    /** gpr_array_get_elem (its bounds check exists only in DEBUG builds). */
    function GetElem(index: nat): Ptr
      reads this
      requires Valid() && index < size
    {
      elem[index]
    }
  }

  /** gpr_array_is_empty: a NULL array counts as empty. */
  predicate IsEmpty(arr: PtrArray?)
    reads arr
  {
    arr == null || arr.size == 0
  }

  /** gpr_array_new: a fresh, empty array, or NULL when its allocation fails. */
  method New(allocOk: bool) returns (arr: PtrArray?)
    ensures allocOk <==> arr != null
    ensures arr != null ==> fresh(arr) && arr.Valid() && arr.size == 0 && arr.elem == []
  {
    if !allocOk {
      return null;
    }
    arr := new PtrArray();
  }

  /** gpr_array_get_size: a NULL array has size 0. */
  function GetSize(arr: PtrArray?): nat
    reads arr
  {
    if arr == null then 0 else arr.size
  }

  /** Emptiness and size agree, for NULL arrays too. */
  lemma EmptyIffSizeZero(arr: PtrArray?)
    ensures IsEmpty(arr) <==> GetSize(arr) == 0
    ensures arr == null ==> IsEmpty(arr) && GetSize(arr) == 0
  {
  }

  /**
   * The unit test's scenario with students st0..st6 as pointers 10..16:
   * after the pushes and the insert the array is [st5, st3, st2, st4, st0,
   * st1] and "Julius" (st2) is found at index 2; after pop_front, pop_back
   * and remove(2) it is [st3, st2, st0], and replace(1) makes it [st3,
   * st6, st0].
   */
  method StudentsScenario() returns (index: nat, afterRemove: seq<Ptr>, afterReplace: seq<Ptr>)
    ensures index == 2
    ensures afterRemove == [13, 12, 10]
    ensures afterReplace == [13, 16, 10]
  {
    var arr := StudentsPushed();
    var err, found;
    found, index := arr.Search(x => x == 12);
    assert arr.elem[2] == 12;
    var freed;
    err, freed := arr.PopFront(true, true);
    err, freed := arr.PopBack(true, true);
    err, freed := arr.Remove(true, 2, true);
    afterRemove := arr.elem;
    err, freed := arr.Replace(true, 16, 1);
    afterReplace := arr.elem;
  }

  /** The first half of the scenario: the pushes and the insert. */
  method StudentsPushed() returns (arr: PtrArray)
    ensures fresh(arr) && arr.Valid()
    ensures arr.elem == [15, 13, 12, 14, 10, 11]
  {
    arr := new PtrArray();
    var err := arr.PushBack(10, true);
    err := arr.PushBack(11, true);
    err := arr.PushFront(12, true);
    err := arr.PushFront(13, true);
    err := arr.Insert(14, 2, true);
    err := arr.PushFront(15, true);
  }
}
