/**
 * The intrusive circular doubly linked list of gpr_klist.h. Every entry
 * is a node with `prev` and `next` links; a list is a ring of entries
 * headed by a sentinel entry that carries no payload. A ring is described
 * by the ghost sequence of its entries in `next` order, the head first.
 * The payload of the structure an entry is embedded in (what
 * CONTAINER_OF reaches) is the entry's `key`.
 */
module KList {
  import opened Sequences

  class Entry {
    const key: int
    var prev: Entry?
    var next: Entry?

    /** gpr_klist_init on a new entry (also GPR_KLIST_INIT): a ring of one. */
    constructor (key: int)
      ensures this.key == key && prev == this && next == this
    {
      this.key := key;
      new;
      prev := this;
      next := this;
    }

    /** gpr_klist_init: the entry's links point back at itself. */
    method Init()
      modifies this
      ensures prev == this && next == this
    {
      prev := this;
      next := this;
    }
  }

  /** The entries of `r` form one ring: each one's `next` is its successor, its `prev` its predecessor, the last wrapping to the first. */
  ghost predicate Ring(r: seq<Entry>)
    reads r
  {
    |r| >= 1 && Distinct(r) &&
    (forall i :: 0 <= i < |r| - 1 ==> r[i].next == r[i + 1]) &&
    (forall i :: 0 < i < |r| ==> r[i].prev == r[i - 1]) &&
    r[|r| - 1].next == r[0] && r[0].prev == r[|r| - 1]
  }

  /** Position after `i` in a ring of `n` entries. */
  function Succ(i: nat, n: nat): nat
    requires i < n
  {
    if i == n - 1 then 0 else i + 1
  }

  /** Position before `i` in a ring of `n` entries. */
  function Pred(i: nat, n: nat): nat
    requires i < n
  {
    if i == 0 then n - 1 else i - 1
  }

  /** The payloads of a run of entries. */
  function Keys(es: seq<Entry>): (ks: seq<int>)
    ensures |ks| == |es|
    ensures forall i :: 0 <= i < |es| ==> ks[i] == es[i].key
  {
    seq(|es|, i requires 0 <= i < |es| => es[i].key)
  }

  /** The keys of a concatenation are the concatenated keys. */
  lemma KeysAppend(a: seq<Entry>, b: seq<Entry>)
    ensures Keys(a + b) == Keys(a) + Keys(b)
  {
    assert forall i :: 0 <= i < |a + b| ==> Keys(a + b)[i] == (Keys(a) + Keys(b))[i];
  }

  /** The ring invariant entry by entry: every entry is its successor's predecessor and its predecessor's successor. */
  lemma RingLinksMirror(r: seq<Entry>)
    requires Ring(r)
    ensures forall e :: e in r ==> e.next != null && e.prev != null && e.next.prev == e && e.prev.next == e
  {
    forall i | 0 <= i < |r|
      ensures r[i].next == r[Succ(i, |r|)] && r[i].prev == r[Pred(i, |r|)]
    {
      if i < |r| - 1 {
        assert r[i].next == r[i + 1];
      }
      if 0 < i {
        assert r[i].prev == r[i - 1];
      }
    }
    forall e | e in r
      ensures e.next != null && e.prev != null && e.next.prev == e && e.prev.next == e
    {
      var i :| 0 <= i < |r| && r[i] == e;
      var s, p := Succ(i, |r|), Pred(i, |r|);
      assert r[s].prev == r[Pred(s, |r|)];
      assert r[p].next == r[Succ(p, |r|)];
    }
  }

  /**
   * __list_add_entry: `next.prev`, `entry.next`, `entry.prev` and `prev.next`
   * are written in that order, so where the three entries coincide the
   * later writes win.
   */
  method AddEntry(entry: Entry, prev: Entry, next: Entry)
    modifies entry, prev, next
    ensures prev.next == entry
    ensures entry.prev == prev
    ensures entry.next == if entry == prev then entry else next
    ensures next.prev == if next == entry then prev else entry
    ensures prev != entry && prev != next ==> prev.prev == old(prev.prev)
    ensures next != entry && next != prev ==> next.next == old(next.next)
  {
    next.prev := entry;
    entry.next := next;
    entry.prev := prev;
    prev.next := entry;
  }

  /** __list_del_entry: `next.prev` and then `prev.next` join the two neighbours. */
  method DelEntry(prev: Entry, next: Entry)
    modifies prev, next
    ensures next.prev == prev && prev.next == next
    ensures prev != next ==> prev.prev == old(prev.prev) && next.next == old(next.next)
  {
    next.prev := prev;
    prev.next := next;
  }

  /**
   * The links of a ring with `entry` spliced in after position p, given
   * entry by entry: the entries untouched by the splice keep their ring
   * links, and the four written links join r[p], entry and r[p]'s old
   * successor.
   */
  lemma RingSpliced(r: seq<Entry>, p: nat, entry: Entry)
    requires |r| >= 1 && Distinct(r) && p < |r| && entry !in r
    requires forall i :: 0 <= i < |r| - 1 && i != p ==> r[i].next == r[i + 1]
    requires forall i :: 0 < i < |r| && i != Succ(p, |r|) ==> r[i].prev == r[i - 1]
    requires p != |r| - 1 ==> r[|r| - 1].next == r[0]
    requires Succ(p, |r|) != 0 ==> r[0].prev == r[|r| - 1]
    requires r[p].next == entry && entry.prev == r[p]
    requires entry.next == r[Succ(p, |r|)] && r[Succ(p, |r|)].prev == entry
    ensures Ring(InsertAt(r, p + 1, entry))
  {
    DistinctInsertAt(r, p + 1, entry);
    SplicedNext(r, p, entry);
    SplicedPrev(r, p, entry);
  }

  /** The forward links of a ring with `entry` spliced in after position p. */
  lemma SplicedNext(r: seq<Entry>, p: nat, entry: Entry)
    requires |r| >= 1 && p < |r|
    requires forall i :: 0 <= i < |r| - 1 && i != p ==> r[i].next == r[i + 1]
    requires p != |r| - 1 ==> r[|r| - 1].next == r[0]
    requires r[p].next == entry && entry.next == r[Succ(p, |r|)]
    ensures var s := InsertAt(r, p + 1, entry);
      (forall i :: 0 <= i < |s| - 1 ==> s[i].next == s[i + 1]) && s[|s| - 1].next == s[0]
  {
    var s := InsertAt(r, p + 1, entry);
    forall i | 0 <= i < |s| - 1
      ensures s[i].next == s[i + 1]
    {
      if i < p {
        assert s[i] == r[i] && s[i + 1] == r[i + 1];
      } else if i > p + 1 {
        assert s[i] == r[i - 1] && s[i + 1] == r[i];
      }
    }
  }

  /** The backward links of a ring with `entry` spliced in after position p. */
  lemma SplicedPrev(r: seq<Entry>, p: nat, entry: Entry)
    requires |r| >= 1 && p < |r|
    requires forall i :: 0 < i < |r| && i != Succ(p, |r|) ==> r[i].prev == r[i - 1]
    requires Succ(p, |r|) != 0 ==> r[0].prev == r[|r| - 1]
    requires entry.prev == r[p] && r[Succ(p, |r|)].prev == entry
    ensures var s := InsertAt(r, p + 1, entry);
      (forall i :: 0 < i < |s| ==> s[i].prev == s[i - 1]) && s[0].prev == s[|s| - 1]
  {
    var s := InsertAt(r, p + 1, entry);
    forall i | 0 < i < |s|
      ensures s[i].prev == s[i - 1]
    {
      if i < p + 1 {
        assert s[i] == r[i] && s[i - 1] == r[i - 1];
      } else if i > p + 2 {
        assert s[i] == r[i - 1] && s[i - 1] == r[i - 2];
      }
    }
  }

  /**
   * __list_add_entry on ring neighbours: `entry` goes between r[p] and its
   * successor (the last entry's successor is the first), so it lands at
   * position p+1 of the ring.
   */
  method AddBetween(entry: Entry, prev: Entry, next: Entry, ghost r: seq<Entry>, ghost p: nat) returns (ghost s: seq<Entry>)
    requires Ring(r) && p < |r| && entry !in r
    requires prev == r[p] && next == r[Succ(p, |r|)]
    modifies entry, set e | e in r
    ensures s == InsertAt(r, p + 1, entry)
    ensures Ring(s)
  {
    ghost var n, q := |r|, Succ(p, |r|);
    assert Distinct(r);
    assert prev.next == next && next.prev == prev;
    AddEntry(entry, prev, next);
    assert forall j :: 0 <= j < n && j != p ==> r[j].next == old(r[j].next);
    assert forall j :: 0 <= j < n && j != q ==> r[j].prev == old(r[j].prev);
    RingSpliced(r, p, entry);
    s := InsertAt(r, p + 1, entry);
  }

  /** Where push_front and push_back put an entry relative to the list head. */
  lemma HeadPositions(r: seq<Entry>, entry: Entry)
    requires |r| >= 1
    ensures InsertAt(r, |r|, entry) == r + [entry]
    ensures (r + [entry])[1..] == r[1..] + [entry]
    ensures InsertAt(r, 1, entry)[1..] == [entry] + r[1..]
  {
    EndsAreFrontAndBack(r, entry);
    var t := r + [entry];
    assert forall i :: 0 <= i < |t| - 1 ==> t[1..][i] == (r[1..] + [entry])[i];
    var u := InsertAt(r, 1, entry);
    assert forall i :: 0 <= i < |u| - 1 ==> u[1..][i] == ([entry] + r[1..])[i];
  }

  /**
   * gpr_klist_push_front: `entry` goes right after `head`, the entry at
   * position j of the ring. For the list head (j = 0) the entries after
   * the head become [entry] followed by the old ones (a stack).
   */
  method PushFront(entry: Entry, head: Entry, ghost r: seq<Entry>, ghost j: nat) returns (ghost s: seq<Entry>)
    requires Ring(r) && j < |r| && r[j] == head && entry !in r
    modifies entry, set e | e in r
    ensures Ring(s)
    ensures s == InsertAt(r, j + 1, entry)
    ensures j == 0 ==> s[0] == head && s[1..] == [entry] + r[1..]
  {
    assert head.next == r[Succ(j, |r|)];
    HeadPositions(r, entry);
    s := AddBetween(entry, head, head.next, r, j);
  }

  /**
   * gpr_klist_push_back: `entry` goes right before `head`. For the list
   * head (j = 0) that is after the last entry: the entries after the head
   * become the old ones followed by `entry` (a queue).
   */
  method PushBack(entry: Entry, head: Entry, ghost r: seq<Entry>, ghost j: nat) returns (ghost s: seq<Entry>)
    requires Ring(r) && j < |r| && r[j] == head && entry !in r
    modifies entry, set e | e in r
    ensures Ring(s)
    ensures s == if j == 0 then r + [entry] else InsertAt(r, j, entry)
    ensures j == 0 ==> s[0] == head && s[1..] == r[1..] + [entry]
  {
    ghost var p := Pred(j, |r|);
    assert head.prev == r[p] && Succ(p, |r|) == j;
    HeadPositions(r, entry);
    assert InsertAt(r, p + 1, entry) == if j == 0 then r + [entry] else InsertAt(r, j, entry);
    s := AddBetween(entry, head.prev, head, r, p);
  }

  /**
   * gpr_klist_delete: the neighbours of `entry` (at position i) are
   * joined, which removes it from the ring with the others in their
   * order, and `entry` becomes a ring of one again.
   */
  method Delete(entry: Entry, ghost r: seq<Entry>, ghost i: nat) returns (ghost s: seq<Entry>)
    requires Ring(r) && i < |r| && r[i] == entry
    modifies set e | e in r
    ensures entry.prev == entry && entry.next == entry
    ensures |r| >= 2 ==> s == RemoveAt(r, i) && Ring(s)
    ensures |r| == 1 ==> s == r
  {
    ghost var n, p, q := |r|, Pred(i, |r|), Succ(i, |r|);
    assert Distinct(r);
    assert entry.prev == r[p] && entry.next == r[q];
    DelEntry(entry.prev, entry.next);
    assert forall j :: 0 <= j < n && j != p && j != i ==> r[j].next == old(r[j].next);
    assert forall j :: 0 <= j < n && j != q && j != i ==> r[j].prev == old(r[j].prev);
    entry.prev := entry;
    entry.next := entry;
    if n == 1 {
      s := r;
    } else {
      RingUnspliced(r, i);
      s := RemoveAt(r, i);
    }
  }

  /**
   * The links of a ring of two or more entries once r[i] is cut out: the
   * other entries keep their ring links, and r[i]'s neighbours point at
   * each other.
   */
  lemma RingUnspliced(r: seq<Entry>, i: nat)
    requires |r| >= 2 && Distinct(r) && i < |r|
    requires forall k :: 0 <= k < |r| - 1 && k != Pred(i, |r|) && k != i ==> r[k].next == r[k + 1]
    requires forall k :: 0 < k < |r| && k != Succ(i, |r|) && k != i ==> r[k].prev == r[k - 1]
    requires Pred(i, |r|) != |r| - 1 && i != |r| - 1 ==> r[|r| - 1].next == r[0]
    requires Succ(i, |r|) != 0 && i != 0 ==> r[0].prev == r[|r| - 1]
    requires r[Pred(i, |r|)].next == r[Succ(i, |r|)] && r[Succ(i, |r|)].prev == r[Pred(i, |r|)]
    ensures Ring(RemoveAt(r, i))
  {
    var s := RemoveAt(r, i);
    DistinctRemoveAt(r, i);
    forall k | 0 <= k < |s| - 1
      ensures s[k].next == s[k + 1]
    {
      if k < i - 1 {
        assert s[k] == r[k] && s[k + 1] == r[k + 1];
      } else if k >= i {
        assert s[k] == r[k + 1] && s[k + 1] == r[k + 2];
      }
    }
    forall k | 0 < k < |s|
      ensures s[k].prev == s[k - 1]
    {
      if k < i {
        assert s[k] == r[k] && s[k - 1] == r[k - 1];
      } else if k > i {
        assert s[k] == r[k + 1] && s[k - 1] == r[k];
      }
    }
  }

  /** gpr_klist_is_empty: the head's successor is the head itself. */
  predicate IsEmpty(head: Entry)
    reads head
  {
    head.next == head
  }

  /** A ring's head is empty exactly when it is alone in the ring. */
  lemma EmptyIffAlone(r: seq<Entry>)
    requires Ring(r)
    ensures IsEmpty(r[0]) <==> |r| == 1
  {
    if |r| > 1 {
      assert r[0].next == r[1] && r[1] != r[0];
    }
  }

  /**
   * GPR_KLIST_FOR_EACH (and FOR_EACH_ENTRY): from `head.next` along the
   * `next` links until the head comes round again; the entries visited
   * are those after the head, in ring order.
   */
  method ForEach(head: Entry, ghost r: seq<Entry>) returns (visited: seq<Entry>)
    requires Ring(r) && r[0] == head
    ensures visited == r[1..]
  {
    visited := [];
    var pos := head.next;
    ghost var k := 1;
    while pos != head
      invariant 1 <= k <= |r|
      invariant pos == if k < |r| then r[k] else head
      invariant visited == r[1..k]
      decreases |r| - k
    {
      if k == |r| {
        assert false;
      }
      assert r[k] != r[0];
      visited := visited + [pos];
      pos := pos.next;
      k := k + 1;
    }
  }

  /**
   * GPR_KLIST_FOR_EACH_REVERSE (and FOR_EACH_ENTRY_REVERSE): from
   * `head.prev` along the `prev` links back to the head; the entries after
   * the head, last first.
   */
  method ForEachReverse(head: Entry, ghost r: seq<Entry>) returns (visited: seq<Entry>)
    requires Ring(r) && r[0] == head
    ensures visited == Reverse(r[1..])
  {
    visited := [];
    var pos := head.prev;
    ghost var k := |r| - 1;
    while pos != head
      invariant 0 <= k < |r|
      invariant pos == r[k]
      invariant visited == Reverse(r[k + 1..])
      decreases k
    {
      if k == 0 {
        assert false;
      }
      assert r[k + 1..] == r[k..][1..];
      visited := visited + [pos];
      pos := pos.prev;
      k := k - 1;
    }
  }

  /** Reference for ordered insertion: `x` goes before the first key greater than it. */
  function InsertSorted(ks: seq<int>, x: int): (r: seq<int>)
    ensures |r| == |ks| + 1
  {
    if ks == [] then [x]
    else if ks[0] > x then [x] + ks
    else
      assert ks == [ks[0]] + ks[1..];
      [ks[0]] + InsertSorted(ks[1..], x)
  }

  /** Ordered insertion adds `x` and keeps every key. */
  lemma {:induction false} InsertSortedPermutes(ks: seq<int>, x: int)
    ensures multiset(InsertSorted(ks, x)) == multiset(ks) + multiset{x}
  {
    if ks != [] && ks[0] <= x {
      InsertSortedPermutes(ks[1..], x);
      assert ks == [ks[0]] + ks[1..];
      assert InsertSorted(ks, x) == [ks[0]] + InsertSorted(ks[1..], x);
    } else {
      assert InsertSorted(ks, x) == [x] + ks;
    }
  }

  /** Ascending keys. */
  ghost predicate Ascending(ks: seq<int>)
  {
    forall a, b :: 0 <= a < b < |ks| ==> ks[a] <= ks[b]
  }

  /** Inserting at the position after every key not above `x` and before the first one above it is ordered insertion. */
  lemma {:induction false} InsertSortedAt(ks: seq<int>, x: int, i: nat)
    requires i <= |ks|
    requires forall m :: 0 <= m < i ==> ks[m] <= x
    requires i < |ks| ==> ks[i] > x
    ensures InsertSorted(ks, x) == InsertAt(ks, i, x)
  {
    if i == 0 {
      assert ks[..0] == [] && ks[0..] == ks;
    } else {
      var t := ks[1..];
      InsertSortedAt(t, x, i - 1);
      calc {
        InsertSorted(ks, x);
        [ks[0]] + InsertSorted(t, x);
        [ks[0]] + (t[..i - 1] + [x] + t[i - 1..]);
        { assert ks[..i] == [ks[0]] + t[..i - 1] && ks[i..] == t[i - 1..]; }
        ks[..i] + [x] + ks[i..];
      }
    }
  }

  /** Ordered insertion keeps ascending keys ascending. */
  lemma {:induction false} InsertSortedAscending(ks: seq<int>, x: int)
    requires Ascending(ks)
    ensures Ascending(InsertSorted(ks, x))
  {
    if ks != [] && ks[0] <= x {
      InsertSortedAscending(ks[1..], x);
      InsertSortedPermutes(ks[1..], x);
      var t := InsertSorted(ks[1..], x);
      assert multiset(t) == multiset(ks[1..]) + multiset{x};
      forall b | 0 <= b < |t|
        ensures ks[0] <= t[b]
      {
        assert t[b] in multiset(t);
        if t[b] != x {
          assert t[b] in multiset(ks[1..]);
          var c :| 0 <= c < |ks[1..]| && ks[1..][c] == t[b];
          assert ks[c + 1] == t[b];
        }
      }
    }
  }

  /**
   * The unit test's insert_student_by_mark: `st` is pushed back before the
   * first entry whose key (the mark) is greater, or before the list head
   * when there is none; the list size passed in comes back one larger.
   * The marks after the head become the ordered insertion of st's mark.
   */
  method InsertByMark(st: Entry, list: Entry, size: nat, ghost r: seq<Entry>) returns (newSize: nat, ghost s: seq<Entry>)
    requires Ring(r) && r[0] == list && st !in r && size == |r| - 1
    modifies st, set e | e in r
    ensures newSize == size + 1
    ensures Ring(s) && s[0] == list
    ensures forall e :: e in s ==> e in r || e == st
    ensures Keys(s[1..]) == InsertSorted(Keys(r[1..]), st.key)
  {
    ghost var j;
    if size == 0 {
      s := PushBack(st, list, r, 0);
      j := |r|;
    } else {
      var cur := list.next;
      ghost var k := 1;
      while cur != list
        invariant Ring(r)
        invariant 1 <= k <= |r|
        invariant cur == if k < |r| then r[k] else list
        invariant forall m :: 1 <= m < k ==> r[m].key <= st.key
        decreases |r| - k
      {
        if k == |r| {
          assert false;
        }
        if cur.key > st.key {
          s := PushBack(st, cur, r, k);
          InsertByMarkKeys(r, st, k, s);
          return size + 1, s;
        }
        assert r[k] != r[0];
        cur := cur.next;
        k := k + 1;
      }
      s := PushBack(st, list, r, 0);
      j := |r|;
    }
    EndsAreFrontAndBack(r, st);
    InsertByMarkKeys(r, st, j, s);
    return size + 1, s;
  }

  /** Keys after inserting `st` at ring position j, behind every mark not above its own and before the first greater one. */
  lemma InsertByMarkKeys(r: seq<Entry>, st: Entry, j: nat, s: seq<Entry>)
    requires 1 <= j <= |r| && s == InsertAt(r, j, st)
    requires forall m :: 1 <= m < j ==> r[m].key <= st.key
    requires j < |r| ==> r[j].key > st.key
    ensures forall e :: e in s ==> e in r || e == st
    ensures Keys(s[1..]) == InsertSorted(Keys(r[1..]), st.key)
  {
    var ks := Keys(r[1..]);
    InsertSortedAt(ks, st.key, j - 1);
    assert Keys(s[1..]) == InsertAt(ks, j - 1, st.key);
    forall e | e in s
      ensures e in r || e == st
    {
      var i :| 0 <= i < |s| && s[i] == e;
      if i < j {
        assert e == r[i];
      } else if i > j {
        assert e == r[i - 1];
      }
    }
  }

  /** One student with mark `mark` inserted by mark into the scenario's list. */
  method AddStudent(list: Entry, size: nat, ghost r: seq<Entry>, mark: int) returns (newSize: nat, ghost s: seq<Entry>)
    requires Ring(r) && r[0] == list && size == |r| - 1
    modifies set e | e in r
    ensures Ring(s) && s[0] == list && newSize == |s| - 1
    ensures forall e :: e in s ==> e in r || fresh(e)
    ensures Keys(s[1..]) == InsertSorted(Keys(r[1..]), mark)
  {
    var st := new Entry(mark);
    newSize, s := InsertByMark(st, list, size, r);
  }

  /** The scenario's first three students, marks 0, 20 and 8. */
  method StudentsFirstThree() returns (list: Entry, size: nat, ghost r: seq<Entry>)
    ensures Ring(r) && r[0] == list && size == |r| - 1
    ensures forall e :: e in r ==> fresh(e)
    ensures Keys(r[1..]) == [0, 8, 20]
  {
    list := new Entry(0);
    r := [list];
    size := 0;
    assert Keys(r[1..]) == [] && InsertSorted([], 0) == [0];
    size, r := AddStudent(list, size, r, 0);
    assert InsertSorted([0], 20) == [0, 20];
    size, r := AddStudent(list, size, r, 20);
    assert InsertSorted([0, 20], 8) == [0, 8, 20];
    size, r := AddStudent(list, size, r, 8);
  }

  /** Then mark 14. */
  method StudentsFirstFour() returns (list: Entry, size: nat, ghost r: seq<Entry>)
    ensures Ring(r) && r[0] == list && size == |r| - 1
    ensures forall e :: e in r ==> fresh(e)
    ensures Keys(r[1..]) == [0, 8, 14, 20]
  {
    list, size, r := StudentsFirstThree();
    LaterMarks();
    size, r := AddStudent(list, size, r, 14);
  }

  /** Then marks 17 and 2: the six marks ascend along the ring. */
  method StudentsInserted() returns (list: Entry, ghost r: seq<Entry>)
    ensures Ring(r) && r[0] == list
    ensures forall e :: e in r ==> fresh(e)
    ensures Keys(r[1..]) == [0, 2, 8, 14, 17, 20]
  {
    var size;
    list, size, r := StudentsFirstFour();
    LaterMarks();
    size, r := AddStudent(list, size, r, 17);
    assert Keys(r[1..]) == [0, 8, 14, 17, 20];
    size, r := AddStudent(list, size, r, 2);
  }

  /** The marks of the scenario's list after the last three insertions. */
  lemma LaterMarks()
    ensures InsertSorted([0, 8, 20], 14) == [0, 8, 14, 20]
    ensures InsertSorted([0, 8, 14, 20], 17) == [0, 8, 14, 17, 20]
    ensures InsertSorted([0, 8, 14, 17, 20], 2) == [0, 2, 8, 14, 17, 20]
  {
    assert InsertSorted([8, 20], 14) == [8] + InsertSorted([20], 14);
    assert InsertSorted([8, 14, 20], 17) == [8] + InsertSorted([14, 20], 17);
    assert InsertSorted([14, 20], 17) == [14] + InsertSorted([20], 17);
  }

  /**
   * The unit test's scenario: forward iteration sees the marks ascending,
   * reverse iteration descending, and deleting the head's successor
   * removes the worst student.
   */
  method StudentsScenario() returns (ascending: seq<int>, descending: seq<int>, afterDelete: seq<int>)
    ensures ascending == [0, 2, 8, 14, 17, 20]
    ensures descending == [20, 17, 14, 8, 2, 0]
    ensures afterDelete == [2, 8, 14, 17, 20]
  {
    var list, r := StudentsInserted();
    var forward := ForEach(list, r);
    ascending := Keys(forward);
    var backward := ForEachReverse(list, r);
    descending := Keys(backward);
    assert descending == Reverse(ascending);
    r := Delete(list.next, r, 1);
    forward := ForEach(list, r);
    afterDelete := Keys(forward);
    assert afterDelete == ascending[1..];
  }
}
