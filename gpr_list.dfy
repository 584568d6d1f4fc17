/**
 * The circular doubly linked list of gpr_list.c. Its entry has the same
 * two links as the gpr_klist entry, and list_add_entry performs the same
 * four writes as __list_add_entry, so the entry class, the ring predicate
 * and the four writes are shared with the KList module; init is
 * KList.Entry.Init. What differs is push_back, whose call passes the
 * head and its predecessor in the wrong order.
 */
module GprList {
  import opened Sequences
  import opened KList

  /** gpr_list_push_front: list_add_entry(new, head, head->next), so `entry` lands right after `head` (position j of the ring). */
  method PushFront(entry: Entry, head: Entry, ghost r: seq<Entry>, ghost j: nat) returns (ghost s: seq<Entry>)
    requires Ring(r) && j < |r| && r[j] == head && entry !in r
    modifies entry, set e | e in r
    ensures Ring(s)
    ensures s == InsertAt(r, j + 1, entry)
    ensures j == 0 ==> s[0] == head && s[1..] == [entry] + r[1..]
  {
    assert head.next == r[Succ(j, |r|)];
    HeadPositions(r, entry);
    s := AddBetween(entry, head, head.next, r, j);
  }

  /**
   * gpr_list_push_back as written: list_add_entry(new, head, head->prev)
   * makes the head the new entry's predecessor and the last entry its
   * successor. On a ring of one or two entries that is a push right after
   * the head; on longer rings the head now skips to `entry`, `entry` to
   * the last entry, and every entry in between is cut out of the forward
   * walk while the first of them still names the head as predecessor:
   * the ring invariant is broken.
   */
  method PushBackAsWritten(entry: Entry, head: Entry, ghost r: seq<Entry>) returns (ghost s: seq<Entry>)
    requires Ring(r) && r[0] == head && entry !in r
    modifies entry, set e | e in r
    ensures |r| <= 2 ==> s == InsertAt(r, 1, entry) && Ring(s)
    ensures |r| >= 3 ==> head.next == entry && entry.next == r[|r| - 1] && r[|r| - 1].next == head
    ensures |r| >= 3 ==> r[1].prev == head && r[1].prev.next != r[1]
  {
    assert Distinct(r);
    ghost var last := r[|r| - 1];
    assert head.prev == last && last.next == head;
    assert |r| >= 2 ==> r[1].prev == head && r[1] != head && r[1] != entry;
    AddEntry(entry, head, head.prev);
    if |r| == 1 {
      s := [head, entry];
    } else if |r| == 2 {
      s := [head, entry, last];
    } else {
      s := [];
    }
    assert |r| <= 2 ==> s == InsertAt(r, 1, entry);
  }

  /**
   * push_back as its documentation describes it ("add before head"), the
   * argument order of gpr_klist_push_back: `entry` goes between the
   * predecessor of `head` and `head`, for the list head after the last
   * entry (a queue).
   */
  method PushBack(entry: Entry, head: Entry, ghost r: seq<Entry>) returns (ghost s: seq<Entry>)
    requires Ring(r) && r[0] == head && entry !in r
    modifies entry, set e | e in r
    ensures Ring(s)
    ensures s == r + [entry]
    ensures s[0] == head && s[1..] == r[1..] + [entry]
  {
    ghost var p := |r| - 1;
    assert head.prev == r[p] && Succ(p, |r|) == 0;
    HeadPositions(r, entry);
    s := AddBetween(entry, head.prev, head, r, p);
  }

  /**
   * A list of two students built with the corrected push_back, then a
   * third pushed back as written: the first student's predecessor no
   * longer leads back to it.
   */
  method PushBackAsWrittenScenario() returns (consistent: bool)
    ensures !consistent
  {
    var list, a, b, r := TwoPushedBack();
    var c := new Entry(3);
    r := PushBackAsWritten(c, list, r);
    consistent := a.prev.next == a;
  }

  /** The first half of the scenario: two students pushed back with the corrected push_back. */
  method TwoPushedBack() returns (list: Entry, a: Entry, b: Entry, ghost r: seq<Entry>)
    ensures fresh(list) && fresh(a) && fresh(b)
    ensures Ring(r) && r == [list, a, b]
  {
    list, a, r := OnePushedBack();
    b := new Entry(2);
    r := PushBack(b, list, r);
  }

  /** A list holding one student pushed back. */
  method OnePushedBack() returns (list: Entry, a: Entry, ghost r: seq<Entry>)
    ensures fresh(list) && fresh(a)
    ensures Ring(r) && r == [list, a]
  {
    list := new Entry(0);
    a := new Entry(1);
    r := [list];
    assert Ring(r);
    r := PushBack(a, list, r);
  }

  /** Prepends one student to the scenario's list. */
  method AddStudent(list: Entry, ghost r: seq<Entry>, mark: int) returns (ghost s: seq<Entry>)
    requires Ring(r) && r[0] == list
    modifies set e | e in r
    ensures Ring(s) && s[0] == list
    ensures forall e :: e in s ==> e in r || fresh(e)
    ensures Keys(s[1..]) == [mark] + Keys(r[1..])
  {
    var st := new Entry(mark);
    s := PushFront(st, list, r, 0);
    InsertAtMembers(r, 1, st);
    KeysAppend([st], r[1..]);
    assert Keys([st]) == [mark];
  }

  /** The first three students of the unit test pushed to the front of a new list. */
  method StudentsFirstThree() returns (list: Entry, ghost r: seq<Entry>)
    ensures Ring(r) && r[0] == list
    ensures forall e :: e in r ==> fresh(e)
    ensures Keys(r[1..]) == [8, 20, 0]
  {
    list := new Entry(0);
    r := [list];
    r := AddStudent(list, r, 0);
    r := AddStudent(list, r, 20);
    r := AddStudent(list, r, 8);
  }

  /**
   * The unit test: six students with marks 0, 20, 8, 14, 17 and 2 pushed
   * to the front one after the other are walked in the reverse order.
   */
  method StudentsScenario() returns (walked: seq<int>)
    ensures walked == [2, 17, 14, 8, 20, 0]
  {
    var list, r := StudentsFirstThree();
    r := AddStudent(list, r, 14);
    r := AddStudent(list, r, 17);
    r := AddStudent(list, r, 2);
    var visited := ForEach(list, r);
    walked := Keys(visited);
  }
}
