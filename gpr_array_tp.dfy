/**
 * The templated size/capacity array of gpr_array_tp.inl, one instance of
 * the template per element type `T`. The template's options become
 * constants of the record: whether an element initialiser
 * (GPR_EL_INIT_FUNC) and destructor (GPR_EL_FREE_FUNC) are defined, the
 * value the initialiser stores, and sizeof(T). The storage is a Dafny
 * array of `capacity` slots (null for a NULL block); `blockBytes` is the
 * byte size of the block actually allocated. Destructor calls are logged
 * as the slot indices they receive, in call order.
 */
module ArrayTp {
  import opened Wrappers
  import opened Sequences

  /** Slots lo, lo+1, ..., hi-1. */
  function Up(lo: int, hi: int): (r: seq<int>)
    ensures |r| == if lo <= hi then hi - lo else 0
    ensures forall i :: 0 <= i < |r| ==> r[i] == lo + i
    decreases hi - lo
  {
    if lo >= hi then [] else [lo] + Up(lo + 1, hi)
  }

  /** Slots hi-1, hi-2, ..., lo. */
  function Down(hi: int, lo: int): (r: seq<int>)
    ensures |r| == if lo <= hi then hi - lo else 0
    ensures forall i :: 0 <= i < |r| ==> r[i] == hi - 1 - i
    decreases hi - lo
  {
    if hi <= lo then [] else [hi - 1] + Down(hi - 1, lo)
  }

  lemma UpSnoc(lo: int, hi: int)
    requires lo <= hi
    ensures Up(lo, hi + 1) == Up(lo, hi) + [hi]
  {
  }

  lemma DownSnoc(hi: int, lo: int)
    requires lo <= hi
    ensures Down(hi, lo - 1) == Down(hi, lo) + [lo - 1]
  {
  }

  /** A destructor loop walking up from `lo` to `hi` exclusive. */
  method CountUp(lo: nat, hi: nat) returns (freed: seq<int>)
    requires lo <= hi
    ensures freed == Up(lo, hi)
  {
    freed := [];
    var it := lo;
    while it != hi
      invariant lo <= it <= hi
      invariant freed == Up(lo, it)
    {
      UpSnoc(lo, it);
      freed := freed + [it];
      it := it + 1;
    }
  }

  /** A destructor loop walking down from `hi`-1 to `lo` inclusive. */
  method CountDown(hi: nat, lo: nat) returns (freed: seq<int>)
    requires lo <= hi
    ensures freed == Down(hi, lo)
  {
    freed := [];
    var back := hi;
    while back != lo
      invariant lo <= back <= hi
      invariant freed == Down(hi, back)
    {
      DownSnoc(hi, back);
      back := back - 1;
      freed := freed + [back];
    }
  }

  /**
   * The slots visited by a pointer loop `for (it = start; it != stop; it +=
   * step)`, cut after `fuel` iterations: the loops of resize as written.
   */
  function PtrWalk(start: int, stop: int, step: int, fuel: nat): (r: seq<int>)
    ensures |r| <= fuel
    decreases fuel
  {
    if fuel == 0 || start == stop then [] else [start] + PtrWalk(start + step, stop, step, fuel - 1)
  }

  /** Walking towards the bound, the loop visits exactly the slots in between. */
  lemma {:induction false} PtrWalkUp(start: int, stop: int, fuel: nat)
    requires start <= stop && stop - start <= fuel
    ensures PtrWalk(start, stop, 1, fuel) == Up(start, stop)
    decreases stop - start
  {
    if start < stop {
      PtrWalkUp(start + 1, stop, fuel - 1);
    }
  }

  lemma {:induction false} PtrWalkDown(start: int, stop: int, fuel: nat)
    requires stop <= start && start - stop <= fuel
    ensures PtrWalk(start, stop, -1, fuel) == Down(start + 1, stop + 1)
    decreases start - stop
  {
    if stop < start {
      PtrWalkDown(start - 1, stop, fuel - 1);
    }
  }

  /** Walking down and away from the bound, the loop visits start, start-1, ... for as long as its budget lasts. */
  lemma {:induction false} PtrWalkDownAway(start: int, stop: int, fuel: nat)
    requires start < stop
    ensures PtrWalk(start, stop, -1, fuel) == Down(start + 1, start + 1 - fuel)
    decreases fuel
  {
    if fuel > 0 {
      PtrWalkDownAway(start - 1, stop, fuel - 1);
    }
  }

  /** Walking away from the bound, the loop never stops: every budget of iterations is used up. */
  lemma {:induction false} PtrWalkRunsAway(start: int, stop: int, step: int, fuel: nat)
    requires (step == 1 && start > stop) || (step == -1 && start < stop)
    ensures |PtrWalk(start, stop, step, fuel)| == fuel
    decreases fuel
  {
    if fuel > 0 {
      PtrWalkRunsAway(start + step, stop, step, fuel - 1);
    }
  }

  /**
   * resize as written, when the initialiser fails on slot `k` (size <= k):
   * the rollback loop starts at k-1 and walks down to `size` exclusive.
   * For k > size it frees k-1 .. size+1 and never slot `size`, which was
   * initialised by this call; for k == size (the first initialisation
   * failed) it starts on slot size-1, below its bound, and walks away from
   * `size`, also when the array was empty and the walk starts before slot 0.
   * Its first iterations destroy the live slots size-1, size-2, ...
   */
  lemma RollbackAsWritten(size: nat, k: nat, fuel: nat)
    requires size <= k
    ensures k > size ==> PtrWalk(k - 1, size, -1, k) == Down(k, size + 1)
    ensures k > size ==> size !in PtrWalk(k - 1, size, -1, k)
    ensures k == size ==> |PtrWalk(k - 1, size, -1, fuel)| == fuel
    ensures k == size ==> PtrWalk(k - 1, size, -1, fuel) == Down(size, size - fuel)
  {
    if k > size {
      PtrWalkDown(k - 1, size, k);
    } else {
      PtrWalkRunsAway(k - 1, size, -1, fuel);
      PtrWalkDownAway(k - 1, size, fuel);
    }
  }

  /**
   * resize as written: the initialiser loop runs from the old size up to
   * the new one and the destructor loop from the new size up to the old
   * one. Whichever goes the wrong way never stops: the initialiser loop
   * when the array shrinks, the destructor loop when it grows.
   */
  lemma ResizeLoopsAsWritten(oldSize: nat, newSize: nat, fuel: nat)
    ensures newSize < oldSize ==> |PtrWalk(oldSize, newSize, 1, fuel)| == fuel
    ensures oldSize < newSize ==> |PtrWalk(newSize, oldSize, 1, fuel)| == fuel
    ensures oldSize <= newSize && newSize - oldSize <= fuel ==> PtrWalk(oldSize, newSize, 1, fuel) == Up(oldSize, newSize)
  {
    if newSize < oldSize {
      PtrWalkRunsAway(oldSize, newSize, 1, fuel);
    } else if oldSize < newSize {
      PtrWalkRunsAway(newSize, oldSize, 1, fuel);
    }
    if oldSize <= newSize && newSize - oldSize <= fuel {
      PtrWalkUp(oldSize, newSize, fuel);
    }
  }

  /** The first slot in [lo, hi) whose initialisation fails, `hi` when none does. */
  function FirstFail(initOk: int -> bool, lo: nat, hi: nat): (k: nat)
    requires lo <= hi
    ensures lo <= k <= hi
    ensures k < hi ==> !initOk(k)
    ensures forall j :: lo <= j < k ==> initOk(j)
    decreases hi - lo
  {
    if lo == hi then hi
    else if !initOk(lo) then lo
    else FirstFail(initOk, lo + 1, hi)
  }

  /** Byte count shrink_to_fit as written asks realloc for: the element count, not the byte size. */
  function ShrinkRequestAsWritten(size: nat, elemSize: nat): nat
  {
    size
  }

  class TpArray<T(0)> {
    const hasInit: bool
    const hasFree: bool
    const initValue: T
    const elemSize: nat
    var size: nat
    var capacity: nat
    var store: array?<T>
    var blockBytes: nat

    /** Size within capacity, a NULL block only for capacity 0, and a block of exactly `capacity` elements. */
    ghost predicate Valid()
      reads this, store
    {
      elemSize > 0 && size <= capacity &&
      (store == null ==> capacity == 0) &&
      (store != null ==> store.Length == capacity) &&
      blockBytes == capacity * elemSize
    }

    /** The live elements. */
    function Contents(): seq<T>
      reads this, store
      requires Valid()
    {
      if store == null then [] else store[..size]
    }

    /**
     * An instance of the template. GPR_EL_INIT_FUNC's rollback calls
     * GPR_EL_FREE_FUNC, so an initialiser needs a destructor.
     */
    constructor (hasInit: bool, hasFree: bool, initValue: T, elemSize: nat)
      requires elemSize > 0
      requires hasInit ==> hasFree
      ensures this.hasInit == hasInit && this.hasFree == hasFree
      ensures this.initValue == initValue && this.elemSize == elemSize
      ensures Valid() && size == 0 && capacity == 0 && store == null
    {
      this.hasInit := hasInit;
      this.hasFree := hasFree;
      this.initValue := initValue;
      this.elemSize := elemSize;
      size := 0;
      capacity := 0;
      store := null;
      blockBytes := 0;
    }

    /**
     * init: size 0 and the requested capacity; a NULL block for capacity
     * 0, otherwise a fresh block, and false when its allocation fails
     * (the record then claims a capacity it does not have).
     */
    method Init(c: nat, allocOk: bool) returns (ok: bool)
      requires elemSize > 0
      modifies this
      ensures size == 0 && capacity == c
      ensures c == 0 ==> ok && store == null && Valid()
      ensures c > 0 ==> ok == allocOk
      ensures c > 0 && ok ==> Valid() && store != null && fresh(store)
      ensures c > 0 && !ok ==> store == null
    {
      size := 0;
      capacity := c;
      if c == 0 {
        store := null;
        blockBytes := 0;
        return true;
      }
      if !allocOk {
        store := null;
        blockBytes := 0;
        return false;
      }
      store := new T[c];
      blockBytes := c * elemSize;
      return true;
    }

    /** free: each live slot to the destructor (when defined), unless the capacity is 0. */
    method Free() returns (freed: seq<int>)
      ensures freed == if capacity != 0 && hasFree then Up(0, size) else []
    {
      freed := [];
      if capacity != 0 && hasFree {
        freed := CountUp(0, size);
      }
    }

    function Size(): nat
      reads this
    {
      size
    }

    function Capacity(): nat
      reads this
    {
      capacity
    }

    predicate Empty()
      reads this
    {
      Size() == 0
    }

    lemma EmptyIffNoContents()
      requires Valid()
      ensures Empty() <==> Contents() == []
    {
    }

    /**
     * reserve: never shrinks. A request within the capacity changes
     * nothing; otherwise the block is reallocated to exactly the request,
     * keeping its old slots, or left alone when that fails.
     */
    method Reserve(c: nat, allocOk: bool) returns (ok: bool)
      requires Valid()
      modifies this
      ensures Valid() && size == old(size)
      ensures old(capacity) >= c ==> ok && capacity == old(capacity) && store == old(store)
      ensures old(capacity) < c && !allocOk ==> !ok && capacity == old(capacity) && store == old(store)
      ensures old(capacity) < c && allocOk ==> ok && capacity == c && store != null && fresh(store)
      ensures old(store) != null ==> store != null && store[..old(capacity)] == old(store[..])
      ensures Contents() == old(Contents())
    {
      if capacity >= c {
        return true;
      }
      if !allocOk {
        return false;
      }
      var block := new T[c];
      var i := 0;
      while i < capacity
        invariant i <= capacity
        invariant store != null ==> block[..i] == store[..i]
        modifies block
      {
        block[i] := store[i];
        i := i + 1;
      }
      assert store != null ==> block[..capacity] == store[..];
      store := block;
      capacity := c;
      blockBytes := c * elemSize;
      return true;
    }

    /**
     * resize, with each loop run only in the direction it can terminate:
     * growing initialises the new slots (when an initialiser is defined),
     * shrinking hands the dropped slots to the destructor (when defined).
     * If the initialiser fails on a slot, the slots this call initialised
     * are destroyed again, last first, and the size is left alone.
     * `initOk` says whether the initialiser succeeds on a slot.
     */
    method Resize(n: nat, allocOk: bool, initOk: int -> bool) returns (ok: bool, freed: seq<int>)
      requires Valid()
      modifies this, store
      ensures Valid()
      ensures store == old(store) || fresh(store)
      ensures old(capacity) >= n ==> store == old(store)
      ensures old(capacity) < n && !allocOk ==>
                !ok && freed == [] && size == old(size) && capacity == old(capacity) && Contents() == old(Contents())
      ensures old(capacity) >= n || allocOk ==> capacity == (if old(capacity) < n then n else old(capacity))
      ensures (old(capacity) >= n || allocOk) && hasInit && old(size) < n && FirstFail(initOk, old(size), n) < n ==>
                !ok && size == old(size) && Contents() == old(Contents()) &&
                freed == Down(FirstFail(initOk, old(size), n), old(size))
      ensures (old(capacity) >= n || allocOk) && !(hasInit && old(size) < n && FirstFail(initOk, old(size), n) < n) ==>
                ok && size == n &&
                freed == (if hasFree && n < old(size) then Up(n, old(size)) else []) &&
                (forall i :: 0 <= i < n && i < old(size) ==> Contents()[i] == old(Contents())[i]) &&
                (hasInit ==> forall i :: old(size) <= i < n ==> Contents()[i] == initValue)
    {
      if capacity < n {
        var r := Reserve(n, allocOk);
        if !r {
          return false, [];
        }
      }
      ok, freed := ResizeWithin(n, initOk);
    }

    /** The part of resize after the capacity is known to suffice. */
    method ResizeWithin(n: nat, initOk: int -> bool) returns (ok: bool, freed: seq<int>)
      requires Valid() && n <= capacity
      modifies this, store
      ensures Valid() && store == old(store) && capacity == old(capacity)
      ensures hasInit && old(size) < n && FirstFail(initOk, old(size), n) < n ==>
                !ok && size == old(size) && Contents() == old(Contents()) &&
                freed == Down(FirstFail(initOk, old(size), n), old(size))
      ensures !(hasInit && old(size) < n && FirstFail(initOk, old(size), n) < n) ==>
                ok && size == n &&
                freed == (if hasFree && n < old(size) then Up(n, old(size)) else []) &&
                (forall i :: 0 <= i < n && i < old(size) ==> Contents()[i] == old(Contents())[i]) &&
                (hasInit ==> forall i :: old(size) <= i < n ==> Contents()[i] == initValue)
    {
      freed := [];
      if hasInit && size < n {
        var k := InitSlots(n, initOk);
        if k < n {
          freed := CountDown(k, size);
          return false, freed;
        }
      }
      if hasFree && n < size {
        freed := CountUp(n, size);
      }
      size := n;
      return true, freed;
    }

    /**
     * The initialiser loop of resize: slots size, size+1, ... up to `n`
     * are initialised until the initialiser fails; returns the failing
     * slot, `n` when none fails.
     */
    method InitSlots(n: nat, initOk: int -> bool) returns (k: nat)
      requires Valid() && size < n <= capacity
      modifies store
      ensures Valid() && store != null
      ensures k == FirstFail(initOk, size, n)
      ensures forall j :: 0 <= j < size ==> store[j] == old(store[j])
      ensures forall j :: size <= j < k ==> store[j] == initValue
    {
      k := size;
      while k != n
        invariant size <= k <= n
        invariant FirstFail(initOk, size, n) == FirstFail(initOk, k, n)
        invariant forall j :: 0 <= j < size ==> store[j] == old(store[j])
        invariant forall j :: size <= j < k ==> store[j] == initValue
      {
        if !initOk(k) {
          return;
        }
        store[k] := initValue;
        k := k + 1;
      }
    }

    /** clear: resize to 0, which destroys every live element. */
    method Clear() returns (freed: seq<int>)
      requires Valid()
      modifies this, store
      ensures Valid() && size == 0 && capacity == old(capacity) && store == old(store)
      ensures freed == if hasFree then Up(0, old(size)) else []
    {
      var ok;
      ok, freed := Resize(0, true, _ => true);
    }

    /** shrink_to_fit as written: the block is reallocated to `size` bytes and the capacity is kept. */
    method ShrinkToFitAsWritten(allocOk: bool) returns (ok: bool)
      requires Valid()
      modifies this
      ensures size == old(size) && capacity == old(capacity) && store == old(store)
      ensures old(size) == old(capacity) ==> ok && blockBytes == old(blockBytes) && Valid()
      ensures old(size) != old(capacity) ==> ok == allocOk
      ensures old(size) != old(capacity) && !ok ==> blockBytes == old(blockBytes) && Valid()
      ensures old(size) != old(capacity) && ok ==> blockBytes == ShrinkRequestAsWritten(size, elemSize) && !Valid()
      // With live elements of two bytes or more, the new block cannot even hold them.
      ensures old(size) != old(capacity) && ok && size >= 1 && elemSize >= 2 ==> blockBytes < size * elemSize
    {
      if size == capacity {
        return true;
      }
      if !allocOk {
        return false;
      }
      blockBytes := ShrinkRequestAsWritten(size, elemSize);
      return true;
    }

    /** shrink_to_fit with the byte count it evidently means: the block shrinks to exactly the live elements. */
    method ShrinkToFit(allocOk: bool) returns (ok: bool)
      requires Valid()
      modifies this
      ensures Valid() && size == old(size)
      ensures Contents() == old(Contents())
      ensures ok ==> capacity == size
      ensures ok <==> old(size) == old(capacity) || allocOk
      ensures !ok ==> capacity == old(capacity) && store == old(store)
      ensures store == old(store) || fresh(store)
    {
      if size == capacity {
        return true;
      }
      if !allocOk {
        return false;
      }
      var block := new T[size];
      var i := 0;
      while i < size
        invariant i <= size
        invariant block[..i] == store[..i]
        modifies block
      {
        block[i] := store[i];
        i := i + 1;
      }
      assert block[..] == store[..size];
      store := block;
      capacity := size;
      blockBytes := size * elemSize;
      return true;
    }

    /** get: pointer arithmetic only, the slot `id` whether or not it is live. */
    function Get(id: nat): int
    {
      id
    }

    /** at as written: NULL for every live slot, the slot itself for every other index. */
    function AtAsWritten(id: nat): (r: Option<int>)
      reads this
      ensures r.None? <==> id < size
      ensures r.Some? ==> r.value >= size
    {
      if id < size then None else Some(Get(id))
    }

    /** at with the check its documentation describes: the slot exactly when it is live. */
    function At(id: nat): (r: Option<int>)
      reads this
      ensures r.Some? <==> id < size
      ensures r.Some? ==> r.value == id
    {
      if id < size then Some(Get(id)) else None
    }

    /**
     * insert before slot `pos` (begin <= pos <= end): a full store first
     * grows to size*3/2+1; then the later elements move one slot up.
     */
    method Insert(pos: nat, e: T, allocOk: bool) returns (ok: bool)
      requires Valid() && pos <= size
      modifies this, store
      ensures Valid()
      ensures store == old(store) || fresh(store)
      ensures ok <==> old(size) < old(capacity) || allocOk
      ensures ok ==> Contents() == InsertAt(old(Contents()), pos, e)
      ensures ok ==> capacity == if old(size) == old(capacity) then old(size) * 3 / 2 + 1 else old(capacity)
      ensures !ok ==> size == old(size) && capacity == old(capacity) && Contents() == old(Contents())
    {
      ok := true;
      if size == capacity {
        ok := Reserve(size * 3 / 2 + 1, allocOk);
      }
      if ok {
        InsertWithin(pos, e);
      }
    }

    /** The shifting part of insert, once a free slot is known to exist. */
    method InsertWithin(pos: nat, e: T)
      requires Valid() && pos <= size < capacity
      modifies this, store
      ensures Valid() && store == old(store) && capacity == old(capacity)
      ensures Contents() == InsertAt(old(Contents()), pos, e)
    {
      ghost var s := Contents();
      var it := size;
      while it != pos
        invariant pos <= it <= size < capacity && store != null && store.Length == capacity
        invariant forall k :: 0 <= k < it ==> store[k] == s[k]
        invariant forall k :: it < k <= size ==> store[k] == s[k - 1]
        modifies store
        decreases it
      {
        store[it] := store[it - 1];
        it := it - 1;
      }
      size := size + 1;
      store[pos] := e;
      assert Contents() == InsertAt(s, pos, e);
    }

    /** erase the element at slot `pos` (a live slot): it is destroyed and the later elements move one slot down. */
    method Erase(pos: nat) returns (freed: seq<int>)
      requires Valid() && pos < size
      modifies this, store
      ensures Valid() && capacity == old(capacity) && store == old(store)
      ensures freed == if hasFree then [pos] else []
      ensures Contents() == RemoveAt(old(Contents()), pos)
    {
      ghost var s := Contents();
      freed := if hasFree then [pos] else [];
      size := size - 1;
      var it := pos;
      while it != size
        invariant pos <= it <= size < store.Length
        invariant forall k :: 0 <= k < pos ==> store[k] == s[k]
        invariant forall k :: pos <= k < it ==> store[k] == s[k + 1]
        invariant forall k :: it < k <= size ==> store[k] == s[k]
        modifies store
      {
        store[it] := store[it + 1];
        it := it + 1;
      }
      assert Contents() == RemoveAt(s, pos);
    }

    /** push_back: insert at the end. */
    method PushBack(e: T, allocOk: bool) returns (ok: bool)
      requires Valid()
      modifies this, store
      ensures Valid()
      ensures store == old(store) || fresh(store)
      ensures ok <==> old(size) < old(capacity) || allocOk
      ensures ok ==> Contents() == old(Contents()) + [e]
      ensures ok ==> capacity == if old(size) == old(capacity) then old(size) * 3 / 2 + 1 else old(capacity)
      ensures !ok ==> size == old(size) && capacity == old(capacity) && Contents() == old(Contents())
    {
      EndsAreFrontAndBack(Contents(), e);
      ok := Insert(size, e, allocOk);
    }

    /** pop_back: erase the last element (there must be one). */
    method PopBack() returns (freed: seq<int>)
      requires Valid() && size > 0
      modifies this, store
      ensures Valid() && capacity == old(capacity) && store == old(store)
      ensures freed == if hasFree then [old(size) - 1] else []
      ensures Contents() == old(Contents())[..old(size) - 1]
    {
      EndsAreFrontAndBack(Contents(), Contents()[0]);
      freed := Erase(size - 1);
    }

    /** map: the callback is applied in place to every live element, front to back. */
    method Map(f: T -> T)
      requires Valid()
      modifies store
      ensures Valid()
      ensures |Contents()| == |old(Contents())|
      ensures forall i :: 0 <= i < size ==> Contents()[i] == f(old(Contents())[i])
    {
      var it := 0;
      while it != size
        invariant it <= size
        invariant store != null ==> forall k :: 0 <= k < it ==> store[k] == f(old(store[k]))
        invariant store != null ==> forall k :: it <= k < store.Length ==> store[k] == old(store[k])
      {
        store[it] := f(store[it]);
        it := it + 1;
      }
    }
  }

  /** swap: the two records exchange size, capacity and storage. */
  method Swap<T(0)>(a: TpArray<T>, b: TpArray<T>)
    requires a.Valid() && b.Valid()
    requires a.elemSize == b.elemSize
    modifies a, b
    ensures a.Valid() && b.Valid()
    ensures a.size == old(b.size) && a.capacity == old(b.capacity) && a.store == old(b.store)
    ensures b.size == old(a.size) && b.capacity == old(a.capacity) && b.store == old(a.store)
    ensures a.Contents() == old(b.Contents()) && b.Contents() == old(a.Contents())
  {
    var size, capacity, store, blockBytes := a.size, a.capacity, a.store, a.blockBytes;
    a.size, a.capacity, a.store, a.blockBytes := b.size, b.capacity, b.store, b.blockBytes;
    b.size, b.capacity, b.store, b.blockBytes := size, capacity, store, blockBytes;
  }

  /** The unit test's first steps, students st0..st3 as 0..3: init with capacity 4, two push_backs, two inserts at the front. */
  method StudentsFirstFour() returns (arr: TpArray<int>)
    ensures fresh(arr) && fresh(arr.store) && arr.Valid()
    ensures arr.Contents() == [3, 2, 0, 1] && arr.capacity == 4
  {
    arr := new TpArray<int>(true, true, 0, 16);
    var ok := arr.Init(4, true);
    ok := arr.PushBack(0, true);
    ok := arr.PushBack(1, true);
    assert arr.Contents() == [0, 1];
    ok := arr.Insert(0, 2, true);
    assert arr.Contents() == [2, 0, 1];
    ok := arr.Insert(0, 3, true);
  }

  /** Two more inserts, st4 before slot 2 and st5 at the front; the first of them finds the array full and grows it to 4*3/2+1 = 7. */
  method StudentsInserted() returns (arr: TpArray<int>)
    ensures fresh(arr) && fresh(arr.store) && arr.Valid()
    ensures arr.Contents() == [5, 3, 2, 4, 0, 1] && arr.capacity == 7
  {
    arr := StudentsFirstFour();
    var ok := arr.Insert(2, 4, true);
    assert arr.Contents() == [3, 2, 4, 0, 1];
    ok := arr.Insert(0, 5, true);
  }

  /** The unit test's removals: erase(begin), pop_back and erase(begin+2) leave [st3, st2, st0] in the grown block. */
  method StudentsScenario() returns (afterInserts: seq<int>, afterErase: seq<int>, capacity: nat)
    ensures afterInserts == [5, 3, 2, 4, 0, 1]
    ensures afterErase == [3, 2, 0]
    ensures capacity == 7
  {
    var arr := StudentsInserted();
    afterInserts := arr.Contents();
    var freed := arr.Erase(0);
    assert arr.Contents() == [3, 2, 4, 0, 1];
    freed := arr.PopBack();
    assert arr.Contents() == [3, 2, 4, 0];
    freed := arr.Erase(2);
    afterErase := arr.Contents();
    capacity := arr.capacity;
  }
}
