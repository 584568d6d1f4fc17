/**
 * The doubly linked list of gpr_dlklist.c: heap nodes holding a data
 * pointer and prev/next links, a list record with head, tail and size.
 * The ghost sequence `nodes` is the chain from head to tail; `Valid()`
 * ties the links to it. Data pointers are `Ptr`s; `allocOk` is whether
 * the node allocation of an operation succeeds, `hasFree` whether a data
 * destructor was passed, and `freed` lists the data handed to it, in call
 * order.
 */
module DlkList {
  import opened CTypes
  import opened GprErr
  import opened Sequences

  class Node {
    /** The data pointer, which no function of the module rewrites once create_node has set it. */
    const data: Ptr
    var prev: Node?
    var next: Node?

    /** create_node (after its allocation succeeded): the data, no links. */
    constructor (data: Ptr)
      ensures this.data == data && prev == null && next == null
    {
      this.data := data;
      prev := null;
      next := null;
    }
  }

  /** The data pointers of a chain of nodes, in chain order. */
  function DataOf(ns: seq<Node>): (r: seq<Ptr>)
  {
    seq(|ns|, i requires 0 <= i < |ns| => ns[i].data)
  }

  /** Linking a node into a chain inserts its data at the same position. */
  lemma DataOfInsertAt(ns: seq<Node>, i: nat, n: Node)
    requires i <= |ns|
    ensures DataOf(InsertAt(ns, i, n)) == InsertAt(DataOf(ns), i, n.data)
  {
  }

  /** Unlinking a node from a chain removes its data from the same position. */
  lemma DataOfRemoveAt(ns: seq<Node>, i: nat)
    requires i < |ns|
    ensures DataOf(RemoveAt(ns, i)) == RemoveAt(DataOf(ns), i)
  {
  }

  /** Bridging over the node at `pos` (the links of its neighbours now skip it) leaves a chain without it. */
  lemma ChainBridged(ns: seq<Node>, pos: nat)
    requires 0 < pos < |ns| - 1
    requires forall i :: 0 < i < |ns| && i != pos + 1 ==> ns[i].prev == ns[i - 1]
    requires forall i :: 0 <= i < |ns| - 1 && i != pos - 1 ==> ns[i].next == ns[i + 1]
    requires ns[pos - 1].next == ns[pos + 1] && ns[pos + 1].prev == ns[pos - 1]
    ensures var r := RemoveAt(ns, pos);
      (forall i :: 0 < i < |r| ==> r[i].prev == r[i - 1]) &&
      (forall i :: 0 <= i < |r| - 1 ==> r[i].next == r[i + 1])
  {
    var r := RemoveAt(ns, pos);
    forall i | 0 < i < |r|
      ensures r[i].prev == r[i - 1]
    {
      if i > pos {
        assert r[i] == ns[i + 1] && r[i - 1] == ns[i];
      }
    }
    forall i | 0 <= i < |r| - 1
      ensures r[i].next == r[i + 1]
    {
      if i >= pos {
        assert r[i] == ns[i + 1] && r[i + 1] == ns[i + 2];
      }
    }
  }

  /** Linking `node` between the nodes at pos-1 and pos gives a chain with it at `pos`. */
  lemma ChainSpliced(ns: seq<Node>, pos: nat, node: Node)
    requires 0 < pos < |ns|
    requires forall i :: 0 < i < |ns| && i != pos ==> ns[i].prev == ns[i - 1]
    requires forall i :: 0 <= i < |ns| - 1 && i != pos - 1 ==> ns[i].next == ns[i + 1]
    requires ns[pos - 1].next == node && node.prev == ns[pos - 1]
    requires node.next == ns[pos] && ns[pos].prev == node
    ensures var r := InsertAt(ns, pos, node);
      (forall i :: 0 < i < |r| ==> r[i].prev == r[i - 1]) &&
      (forall i :: 0 <= i < |r| - 1 ==> r[i].next == r[i + 1])
  {
    var r := InsertAt(ns, pos, node);
    forall i | 0 < i < |r|
      ensures r[i].prev == r[i - 1]
    {
      if i > pos + 1 {
        assert r[i] == ns[i - 1] && r[i - 1] == ns[i - 2];
      } else if i < pos {
        assert r[i] == ns[i] && r[i - 1] == ns[i - 1];
      }
    }
    forall i | 0 <= i < |r| - 1
      ensures r[i].next == r[i + 1]
    {
      if i < pos - 1 {
        assert r[i] == ns[i] && r[i + 1] == ns[i + 1];
      } else if i > pos {
        assert r[i] == ns[i - 1] && r[i + 1] == ns[i];
      }
    }
  }

  class DlkList {
    var size: nat
    var head: Node?
    var tail: Node?
    ghost var nodes: seq<Node>

    /**
     * The list invariant: `size` counts the chain; head and tail are its
     * ends (NULL when it is empty); head.prev and tail.next are NULL; prev
     * and next mirror each other; no node occurs twice; and the watchdog's
     * promise: every data pointer is non-NULL and occurs once.
     */
    ghost predicate Valid()
      reads this, nodes
    {
      size == |nodes| &&
      (nodes == [] ==> head == null && tail == null) &&
      (nodes != [] ==> head == nodes[0] && tail == nodes[|nodes| - 1] && head.prev == null && tail.next == null) &&
      (forall i :: 0 < i < |nodes| ==> nodes[i].prev == nodes[i - 1]) &&
      (forall i :: 0 <= i < |nodes| - 1 ==> nodes[i].next == nodes[i + 1]) &&
      Distinct(nodes) &&
      NULL !in Contents() &&
      Distinct(Contents())
    }

    /** The list's nodes as a set, the heap footprint its operations may modify. */
    ghost function NodeSet(): set<Node>
      reads this
    {
      set n | n in nodes
    }

    /** The data pointers from head to tail. */
    ghost function Contents(): seq<Ptr>
      reads this
    {
      DataOf(nodes)
    }

    /** The list part of gpr_dlklist_create: size 0, no head, no tail. */
    constructor ()
      ensures Valid() && nodes == [] && Contents() == []
    {
      size := 0;
      head := null;
      tail := null;
      nodes := [];
    }

    /** is_contained: whether `data` is already the data of some node. */
    method IsContained(data: Ptr) returns (b: bool)
      requires Valid()
      ensures b <==> data in Contents()
    {
      if head == null {
        return false;
      }
      var scout := head;
      var i := 0;
      while scout != null && scout.data != NULL
        invariant 0 <= i <= |nodes|
        invariant scout == if i < |nodes| then nodes[i] else null
        invariant i < |nodes| ==> Contents()[i] == nodes[i].data
        invariant forall k :: 0 <= k < i ==> Contents()[k] != data
        decreases |nodes| - i
      {
        assert Contents()[i] == scout.data;
        if data == scout.data {
          return true;
        }
        scout := scout.next;
        i := i + 1;
      }
      return false;
    }

    /**
     * gpr_dlklist_search: the first node whose data the predicate accepts
     * and its position; NULL and position 0 when none does.
     */
    method Search(p: Ptr -> bool) returns (node: Node?, pos: nat)
      requires Valid()
      ensures FirstIndex(Contents(), p) < size ==> pos == FirstIndex(Contents(), p) && node == nodes[pos]
      ensures FirstIndex(Contents(), p) == size ==> pos == 0 && node == null
      ensures node != null ==> p(node.data)
    {
      var scout := head;
      var counter := 0;
      while scout != null && scout.data != NULL
        invariant 0 <= counter <= |nodes|
        invariant scout == if counter < |nodes| then nodes[counter] else null
        invariant counter < |nodes| ==> Contents()[counter] == nodes[counter].data
        invariant forall k :: 0 <= k < counter ==> !p(Contents()[k])
        decreases |nodes| - counter
      {
        assert Contents()[counter] == scout.data;
        if p(scout.data) {
          return scout, counter;
        }
        counter := counter + 1;
        scout := scout.next;
      }
      return null, 0;
    }

    /** gpr_dlklist_reset: every data pointer goes to the destructor, head to tail; then the list is empty. */
    method Reset(hasFree: bool) returns (freed: seq<Ptr>)
      requires Valid()
      modifies this
      ensures Valid() && nodes == [] && head == null && tail == null
      ensures freed == if hasFree then old(Contents()) else []
    {
      freed := [];
      if head == null {
        return;
      }
      var scout := head;
      var i := 0;
      while scout != null && scout.data != NULL
        invariant 0 <= i <= |nodes|
        invariant scout == if i < |nodes| then nodes[i] else null
        invariant freed == if hasFree then Contents()[..i] else []
        decreases |nodes| - i
      {
        var next := scout.next;
        assert Contents()[i] == scout.data;
        assert Contents()[..i + 1] == Contents()[..i] + [scout.data];
        if hasFree {
          freed := freed + [scout.data];
        }
        scout := next;
        i := i + 1;
      }
      assert Contents()[..i] == Contents();
      size := 0;
      head := null;
      tail := null;
      nodes := [];
    }

    /** A node create_node has just made, whose data the watchdog has let through. */
    ghost predicate Linkable(node: Node)
      reads this, node
    {
      node !in nodes && node.prev == null && node.next == null &&
      node.data != NULL && node.data !in Contents()
    }

    /** The linking step of push_front: the node becomes the head (and the tail of an empty list). */
    method LinkFirst(node: Node)
      requires Valid() && Linkable(node)
      modifies this, NodeSet(), node
      ensures Valid() && nodes == InsertAt(old(nodes), 0, node)
      ensures Contents() == InsertAt(old(Contents()), 0, node.data)
    {
      ghost var ns := nodes;
      DistinctInsertAt(ns, 0, node);
      DataOfInsertAt(ns, 0, node);
      DistinctInsertAt(DataOf(ns), 0, node.data);
      if head == null {
        head := node;
        tail := node;
        size := size + 1;
        nodes := [node];
        return;
      }
      var first := head;
      first.prev := node;
      node.next := first;
      head := node;
      size := size + 1;
      nodes := InsertAt(ns, 0, node);
      forall i | 0 < i < |nodes|
        ensures nodes[i].prev == nodes[i - 1]
      {
        if i > 1 {
          assert ns[i - 1] != ns[0];
        }
      }
    }

    /** The linking step of push_back: the node becomes the tail (and the head of an empty list). */
    method LinkLast(node: Node)
      requires Valid() && Linkable(node)
      modifies this, NodeSet(), node
      ensures Valid() && nodes == InsertAt(old(nodes), |old(nodes)|, node)
      ensures Contents() == InsertAt(old(Contents()), |old(nodes)|, node.data)
    {
      ghost var ns := nodes;
      DistinctInsertAt(ns, |ns|, node);
      DataOfInsertAt(ns, |ns|, node);
      DistinctInsertAt(DataOf(ns), |ns|, node.data);
      if head == null {
        head := node;
        tail := node;
        size := size + 1;
        nodes := [node];
        return;
      }
      var last := tail;
      last.next := node;
      node.prev := last;
      tail := node;
      size := size + 1;
      nodes := InsertAt(ns, |ns|, node);
      forall i | 0 <= i < |nodes| - 1
        ensures nodes[i].next == nodes[i + 1]
      {
        if i < |ns| - 1 {
          assert ns[i] != ns[|ns| - 1];
        }
      }
    }

    /** The linking step of insert: walk to the node at `pos` and link the new node in before it. */
    method LinkBefore(node: Node, pos: nat)
      requires Valid() && Linkable(node) && 0 < pos < size
      modifies this, NodeSet(), node
      ensures Valid() && nodes == InsertAt(old(nodes), pos, node)
      ensures Contents() == InsertAt(old(Contents()), pos, node.data)
    {
      ghost var ns := nodes;
      DistinctInsertAt(ns, pos, node);
      DataOfInsertAt(ns, pos, node);
      DistinctInsertAt(DataOf(ns), pos, node.data);
      InsertAtMembers(DataOf(ns), pos, node.data);
      ghost var r := InsertAt(ns, pos, node);
      assert r[0] == ns[0] && r[|r| - 1] == ns[|ns| - 1];
      var scout := WalkTo(pos);
      var before := scout.prev;
      assert before == ns[pos - 1];
      node.next := scout;
      node.prev := before;
      before.next := node;
      scout.prev := node;
      size := size + 1;
      nodes := InsertAt(ns, pos, node);
      assert forall i :: 0 < i < |ns| && i != pos ==> ns[i].prev == ns[i - 1];
      assert forall i :: 0 <= i < |ns| - 1 && i != pos - 1 ==> ns[i].next == ns[i + 1];
      ChainSpliced(ns, pos, node);
    }

    /** The unlinking step of pop_front on two nodes or more: the second node becomes the head. */
    method UnlinkFirst() returns (first: Node)
      requires Valid() && size >= 2
      modifies this, NodeSet()
      ensures Valid() && nodes == RemoveAt(old(nodes), 0)
      ensures first == old(nodes)[0] && first.data == old(Contents())[0]
      ensures Contents() == RemoveAt(old(Contents()), 0)
    {
      ghost var ns := nodes;
      DistinctRemoveAt(ns, 0);
      DataOfRemoveAt(ns, 0);
      DistinctRemoveAt(DataOf(ns), 0);
      first := head;
      assert ns[0].next == ns[1];
      head := first.next;
      head.prev := null;
      size := size - 1;
      nodes := RemoveAt(ns, 0);
      forall i | 0 < i < |nodes|
        ensures nodes[i].prev == nodes[i - 1]
      {
        assert ns[i + 1] != ns[1];
      }
    }

    /** The unlinking step of pop_back on two nodes or more: the last but one node becomes the tail. */
    method UnlinkLast() returns (last: Node)
      requires Valid() && size >= 2
      modifies this, NodeSet()
      ensures Valid() && nodes == RemoveAt(old(nodes), old(size) - 1)
      ensures last == old(nodes)[old(size) - 1] && last.data == old(Contents())[old(size) - 1]
      ensures Contents() == RemoveAt(old(Contents()), old(size) - 1)
    {
      ghost var ns := nodes;
      DistinctRemoveAt(ns, |ns| - 1);
      DataOfRemoveAt(ns, |ns| - 1);
      DistinctRemoveAt(DataOf(ns), |ns| - 1);
      last := tail;
      assert ns[|ns| - 1].prev == ns[|ns| - 2];
      tail := last.prev;
      tail.next := null;
      size := size - 1;
      nodes := RemoveAt(ns, |ns| - 1);
      forall i | 0 <= i < |nodes| - 1
        ensures nodes[i].next == nodes[i + 1]
      {
        assert ns[i] != ns[|nodes| - 1];
      }
    }

    /** The unlinking step of remove strictly inside the list: walk to the node at `pos` and bridge over it. */
    method UnlinkAt(pos: nat) returns (gone: Node)
      requires Valid() && 0 < pos < size - 1
      modifies this, NodeSet()
      ensures Valid() && nodes == RemoveAt(old(nodes), pos)
      ensures gone == old(nodes)[pos] && gone.data == old(Contents())[pos]
      ensures Contents() == RemoveAt(old(Contents()), pos)
    {
      ghost var ns := nodes;
      DistinctRemoveAt(ns, pos);
      DataOfRemoveAt(ns, pos);
      DistinctRemoveAt(DataOf(ns), pos);
      RemoveAtMembers(DataOf(ns), pos);
      ghost var r := RemoveAt(ns, pos);
      assert r[0] == ns[0] && r[|r| - 1] == ns[|ns| - 1];
      var scout := WalkTo(pos);
      var before, after := scout.prev, scout.next;
      assert before == ns[pos - 1] && after == ns[pos + 1];
      gone := scout;
      before.next := after;
      after.prev := before;
      size := size - 1;
      nodes := RemoveAt(ns, pos);
      assert forall i :: 0 < i < |ns| && i != pos + 1 ==> ns[i].prev == ns[i - 1];
      assert forall i :: 0 <= i < |ns| - 1 && i != pos - 1 ==> ns[i].next == ns[i + 1];
      ChainBridged(ns, pos);
    }

    /** The walk of insert and remove: from the head, `pos` steps along the next links. */
    method WalkTo(pos: nat) returns (scout: Node)
      requires Valid() && pos < size
      ensures scout == nodes[pos]
    {
      scout := head;
      var counter := 0;
      while counter != pos
        invariant counter <= pos
        invariant scout == nodes[counter]
      {
        assert scout.next == nodes[counter + 1];
        counter := counter + 1;
        scout := scout.next;
      }
    }

    /**
     * gpr_dlklist_push_front: INVALID_PARAMETER for NULL data, KO for data
     * already in the list (the watchdog), MEMORY_FAILURE when the node
     * cannot be allocated; the list is then unchanged. Otherwise the data
     * becomes the first element.
     */
    method PushFront(data: Ptr, allocOk: bool) returns (err: Err)
      requires Valid()
      modifies this, NodeSet()
      ensures Valid()
      ensures forall n :: n in nodes ==> n in old(nodes) || fresh(n)
      ensures err == (if data == NULL then InvalidParameter
                      else if data in old(Contents()) then Ko
                      else if !allocOk then MemoryFailure
                      else Ok)
      ensures err == Ok ==> Contents() == [data] + old(Contents())
      ensures err != Ok ==> Contents() == old(Contents())
    {
      if data == NULL {
        return InvalidParameter;
      }
      var dup := IsContained(data);
      if dup {
        return Ko;
      }
      if !allocOk {
        return MemoryFailure;
      }
      var node := new Node(data);
      LinkFirst(node);
      return Ok;
    }

    /** gpr_dlklist_push_back: as push_front, at the tail. */
    method PushBack(data: Ptr, allocOk: bool) returns (err: Err)
      requires Valid()
      modifies this, NodeSet()
      ensures Valid()
      ensures forall n :: n in nodes ==> n in old(nodes) || fresh(n)
      ensures err == (if data == NULL then InvalidParameter
                      else if data in old(Contents()) then Ko
                      else if !allocOk then MemoryFailure
                      else Ok)
      ensures err == Ok ==> Contents() == old(Contents()) + [data]
      ensures err != Ok ==> Contents() == old(Contents())
    {
      if data == NULL {
        return InvalidParameter;
      }
      var dup := IsContained(data);
      if dup {
        return Ko;
      }
      if !allocOk {
        return MemoryFailure;
      }
      var node := new Node(data);
      LinkLast(node);
      return Ok;
    }

    /**
     * gpr_dlklist_insert: NULL data or a position past the end is
     * INVALID_PARAMETER; position 0 and position `size` are the two
     * pushes; otherwise the watchdog and the allocation as in the pushes,
     * and the new node is linked in before the node at `pos`.
     */
    method Insert(data: Ptr, pos: nat, allocOk: bool) returns (err: Err)
      requires Valid()
      modifies this, NodeSet()
      ensures Valid()
      ensures forall n :: n in nodes ==> n in old(nodes) || fresh(n)
      ensures err == (if data == NULL || pos > old(size) then InvalidParameter
                      else if data in old(Contents()) then Ko
                      else if !allocOk then MemoryFailure
                      else Ok)
      ensures err == Ok ==> Contents() == InsertAt(old(Contents()), pos, data)
      ensures err != Ok ==> Contents() == old(Contents())
    {
      if data == NULL {
        return InvalidParameter;
      }
      if pos > size {
        return InvalidParameter;
      }
      EndsAreFrontAndBack(Contents(), data);
      if pos == 0 {
        err := PushFront(data, allocOk);
        return;
      }
      if pos == size {
        err := PushBack(data, allocOk);
        return;
      }
      var dup := IsContained(data);
      if dup {
        return Ko;
      }
      if !allocOk {
        return MemoryFailure;
      }
      var node := new Node(data);
      LinkBefore(node, pos);
      return Ok;
    }

    /**
     * gpr_dlklist_pop_front: KO on an empty list; a one-node list is
     * reset; otherwise the second node becomes the head and the first
     * node's data goes to the destructor.
     */
    method PopFront(hasFree: bool) returns (err: Err, freed: seq<Ptr>)
      requires Valid()
      modifies this, NodeSet()
      ensures Valid()
      ensures forall n :: n in nodes ==> n in old(nodes)
      ensures old(size) == 0 ==> err == Ko && Contents() == old(Contents()) && freed == []
      ensures old(size) > 0 ==> err == Ok && Contents() == old(Contents())[1..]
      ensures old(size) > 0 ==> freed == if hasFree then [old(Contents())[0]] else []
    {
      if head == null {
        return Ko, [];
      }
      if size == 1 {
        freed := Reset(hasFree);
        return Ok, freed;
      }
      var first := UnlinkFirst();
      freed := if hasFree then [first.data] else [];
      return Ok, freed;
    }

    /** gpr_dlklist_pop_back: as pop_front, at the tail. */
    method PopBack(hasFree: bool) returns (err: Err, freed: seq<Ptr>)
      requires Valid()
      modifies this, NodeSet()
      ensures Valid()
      ensures forall n :: n in nodes ==> n in old(nodes)
      ensures old(size) == 0 ==> err == Ko && Contents() == old(Contents()) && freed == []
      ensures old(size) > 0 ==> err == Ok && Contents() == old(Contents())[..old(size) - 1]
      ensures old(size) > 0 ==> freed == if hasFree then [old(Contents())[old(size) - 1]] else []
    {
      if head == null {
        return Ko, [];
      }
      if size == 1 {
        freed := Reset(hasFree);
        return Ok, freed;
      }
      var last := UnlinkLast();
      freed := if hasFree then [last.data] else [];
      return Ok, freed;
    }

    /**
     * gpr_dlklist_remove: a position past the last node is
     * INVALID_PARAMETER (an empty list included); position 0 and the last
     * position are the two pops; otherwise the node at `pos` is unlinked.
     */
    method Remove(hasFree: bool, pos: nat) returns (err: Err, freed: seq<Ptr>)
      requires Valid()
      modifies this, NodeSet()
      ensures Valid()
      ensures forall n :: n in nodes ==> n in old(nodes)
      ensures pos >= old(size) ==> err == InvalidParameter && Contents() == old(Contents()) && freed == []
      ensures pos < old(size) ==> err == Ok && Contents() == RemoveAt(old(Contents()), pos)
      ensures pos < old(size) ==> freed == if hasFree then [old(Contents())[pos]] else []
    {
      ghost var c := Contents();
      if pos >= size {
        err, freed := InvalidParameter, [];
      } else if pos == 0 {
        EndsAreFrontAndBack(c, NULL);
        err, freed := PopFront(hasFree);
      } else if pos == size - 1 {
        EndsAreFrontAndBack(c, NULL);
        err, freed := PopBack(hasFree);
      } else {
        RemoveAtMembers(nodes, pos);
        var scout := UnlinkAt(pos);
        err, freed := Ok, if hasFree then [scout.data] else [];
      }
    }
  }

  /** gpr_dlklist_create: a fresh empty list, or NULL when its allocation fails. */
  method Create(allocOk: bool) returns (list: DlkList?)
    ensures allocOk <==> list != null
    ensures list != null ==> fresh(list) && list.Valid() && list.Contents() == []
  {
    if !allocOk {
      return null;
    }
    list := new DlkList();
  }

  /** gpr_dlklist_is_empty: a NULL list or one without a head. */
  predicate IsEmpty(list: DlkList?)
    reads list
  {
    list == null || list.head == null
  }

  /** gpr_dlklist_get_size: 0 for a NULL list. */
  function GetSize(list: DlkList?): nat
    reads list
  {
    if list == null then 0 else list.size
  }

  /** On a valid list, emptiness, size 0 and empty contents coincide, and the size counts the elements. */
  lemma EmptyIffNoContents(list: DlkList)
    requires list.Valid()
    ensures IsEmpty(list) <==> GetSize(list) == 0
    ensures IsEmpty(list) <==> list.Contents() == []
    ensures GetSize(list) == |list.Contents()|
  {
  }

  /** The scenario's first four pushes: two push_backs, then two push_fronts. */
  method StudentsPushed() returns (list: DlkList)
    ensures fresh(list) && list.Valid()
    ensures forall n :: n in list.nodes ==> fresh(n)
    ensures list.Contents() == [13, 12, 10, 11]
  {
    list := new DlkList();
    var err := list.PushBack(10, true);
    err := list.PushBack(11, true);
    assert list.Contents() == [10, 11];
    err := list.PushFront(12, true);
    err := list.PushFront(13, true);
  }

  /** Then an insert at position 2 and one more push_front. */
  method StudentsInserted() returns (list: DlkList)
    ensures fresh(list) && list.Valid()
    ensures forall n :: n in list.nodes ==> fresh(n)
    ensures list.Contents() == [15, 13, 12, 14, 10, 11]
  {
    list := StudentsPushed();
    var err := list.Insert(14, 2, true);
    assert list.Contents() == [13, 12, 14, 10, 11];
    err := list.PushFront(15, true);
  }

  /**
   * The unit test's scenario with students st0..st5 as pointers 10..15:
   * two push_backs, two push_fronts, an insert at 2 and a push_front give
   * [st5, st3, st2, st4, st0, st1], and "Julius" (st2) is found at
   * position 2. Pushing st2 a second time, a step beyond the test, is
   * refused by the containment check.
   */
  method StudentsScenario() returns (ghost contents: seq<Ptr>, pos: nat, again: Err)
    ensures contents == [15, 13, 12, 14, 10, 11]
    ensures pos == 2
    ensures again == Ko
  {
    var list := StudentsInserted();
    contents := list.Contents();
    assert contents[0] != 12 && contents[1] != 12 && contents[2] == 12;
    var node;
    node, pos := list.Search(x => x == 12);
    again := list.PushBack(12, true);
  }
}
