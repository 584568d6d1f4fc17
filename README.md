# GPR containers, string routines and dependency grapher in Dafny

This project models the core of GPR, a small C utility library, and the
Python script that draws its include graph. Everything is written in
Dafny and the properties are proved.

- **Containers.**
  - The pointer array `gpr_array`: a `void *` block reallocated to exactly `size` slots.
  - The templated size/capacity array of `gpr_array_tp.inl`.
  - The minimal templated array of `gpr_arrtpl.h`.
  - The doubly linked list `gpr_dlklist`, whose "watchdog" refuses duplicate data.
  - The intrusive circular lists `gpr_klist` and `gpr_list`, made of sentinel-headed rings.
- **Tree.** The child/sibling tree `gpr_tree`, with loop detection and preorder search.
- **Small routines.**
  - The offset bookkeeping of `gpr_buf`.
  - Case conversion and trimming in `gpr_str`.
  - `gpr_bin_hexlify`.
  - The `scnprintf` clamp of `gpr_builtin`.
  - The error table and message store of `gpr_err`.
  - The level filter of `gpr_log`.
- **Script.** `extras/graph/grapher.py`:
  - include extraction;
  - file- and module-mode Graphviz edge lines, with the known-only filter;
  - the library text;
  - the DOT document `render` writes.

## How the C state is represented

The model has one Dafny module per source file, plus shared pieces:
- `Sequences` holds positional insert/remove on abstract contents;
- `CTypes` holds pointers, bytes, C `isspace` and C strings;
- `Wrappers` holds `Option`.

Code that updates state in place is modelled as classes with `modifies` clauses:
- **Arrays.**
  - `gpr_array_tp` and `gpr_arrtpl` keep a real Dafny `array` (null for a NULL block).
  - `gpr_array` keeps its block as a `seq` field, because every operation reallocates it.
- **Linked structures.**
  - Lists are heap nodes whose links are tied to a ghost sequence of their nodes.
  - The tree's nodes carry a ghost rank that proves the links acyclic. A ghost parent map shows that the corrected add_child and add_sibling keep them trees.
- **Pure code** becomes functions and lemmas: search and containment in the tree, the grapher's text functions, error and level names.

**Effects the code cannot see are parameters:**
- whether an allocation, an initialiser or `freopen` succeeds;
- the lengths vsnprintf reports;
- a directory listing.

**Destructor calls are returned as an ordered log:** the data pointers or slot indices handed to the destructor.

**Unconditional checks in the source are modelled error returns.** Checks that exist only in `DEBUG` builds are preconditions.

**Where the documentation and the code disagree, the model follows the code:**
- `gpr_dlklist_remove` on an empty list returns INVALID_PARAMETER, because its position check comes first. The header promises KO.
- `gpr_log_msg` processes messages whose level is at or above the default level. The header says "this specific level or below".

**Evident defects are modelled twice:** once as written, and once as evidently intended; see "## Findings". The rest of the model uses the intended version. This covers:
- `at`, `shrink_to_fit` and the `resize` loops of `gpr_array_tp`;
- `gpr_str_rtrim`;
- `gpr_list_push_back`;
- the loop check of `gpr_tree_add_child` and `gpr_tree_add_sibling`, and their acceptance of a node that already has a parent.

## Model

| member | source | states |
|---|---|---|
| CTypes.CStrLen | src/gpr_str.c:119 | the length of a C string is the index of its first NUL: no NUL before it, a NUL at it when the buffer holds one |
| CTypes.CStr | src/gpr_str.c:85-102 | the string a `char *` designates is the buffer prefix before the first NUL |
| Sequences.InsertAt | src/gpr_array.c:164-203 | inserting at index i keeps the elements before i, puts the new element at i and moves the rest one place up |
| Sequences.RemoveAt | src/gpr_array.c:276-315 | removing index i keeps the elements before i and moves the later ones one place down |
| Sequences.RemoveInserted | src/gpr_array.c:164-203 | removing what insert put at index i gives back the original contents |
| Sequences.InsertRemoved | src/gpr_array.c:276-315 | re-inserting the removed element at its index gives back the original contents |
| Sequences.EndsAreFrontAndBack | src/gpr_array.c:181-185 | insertion at index 0 is a push at the front and at index size a push at the back, matching the delegation in insert |
| Sequences.FirstIndex | src/gpr_array.c:357-379 | the first index whose element the predicate accepts, with no accepted element before it |
| PtrArray.PtrArray.constructor | src/gpr_array.c:56-57 | the record gpr_array_new initialises is empty and valid |
| PtrArray.New | src/gpr_array.c:47-60 | NULL exactly when the malloc fails; otherwise a fresh, empty, valid array |
| PtrArray.PtrArray.Init | src/gpr_array.c:62-73 | init leaves size 0 and no storage |
| PtrArray.PtrArray.Reset | src/gpr_array.c:75-92 | reset hands every element, in index order, to the destructor when one is given, and leaves the array empty |
| PtrArray.PtrArray.PushFront | src/gpr_array.c:109-136 | on success the contents become [e] + old; a failed realloc gives MEMORY_FAILURE and leaves the contents alone |
| PtrArray.PtrArray.PushBack | src/gpr_array.c:138-162 | on success the contents become old + [e]; a failed realloc gives MEMORY_FAILURE and leaves the contents alone |
| PtrArray.PtrArray.Insert | src/gpr_array.c:164-203 | on success the contents become InsertAt(old, index, e), including the delegated ends; a failed realloc changes nothing |
| PtrArray.PtrArray.PopFront | src/gpr_array.c:205-240 | an empty array gives KO and is unchanged; otherwise the first element is dropped and destroyed, and only a failed shrinking realloc of two or more elements reports MEMORY_FAILURE |
| PtrArray.PtrArray.PopBack | src/gpr_array.c:242-274 | an empty array gives KO and is unchanged; otherwise the last element is dropped and destroyed, with the same realloc outcome as pop_front |
| PtrArray.PtrArray.Remove | src/gpr_array.c:276-315 | an empty array gives KO; otherwise the contents become RemoveAt(old, index) and the removed element is destroyed |
| PtrArray.PtrArray.Replace | src/gpr_array.c:317-342 | an empty array gives KO; otherwise only slot index changes, the old element is destroyed and the size is kept |
| PtrArray.PtrArray.Search | src/gpr_array.c:357-379 | the first accepted element and its index; NULL with index 0 exactly when no element is accepted |
| PtrArray.EmptyIffSizeZero | src/gpr_array.c:381-397 | is_empty holds exactly when get_size is 0, and a NULL array is empty with size 0 |
| PtrArray.StudentsScenario | tests/gpr_ut_array.c:90-128 | the test's pushes and insert put Julius at index 2; pop_front, pop_back and remove(2) leave [st3, st2, st0]; replace(1) gives [st3, st6, st0] |
| PtrArray.StudentsPushed | tests/gpr_ut_array.c:90-101 | the test's pushes and insert give [st5, st3, st2, st4, st0, st1] |
| ArrayTp.Up | include/gpr_array_tp.inl:305-306 | the slots an upward destructor loop visits, in order |
| ArrayTp.Down | include/gpr_array_tp.inl:295-297 | the slots a downward rollback loop visits, in order |
| ArrayTp.CountUp | include/gpr_arrtpl.h:170-176 | a destructor loop from lo up to hi visits exactly Up(lo, hi) |
| ArrayTp.CountDown | include/gpr_array_tp.inl:295-297 | a destructor loop from hi-1 down to lo visits exactly Down(hi, lo) |
| ArrayTp.PtrWalk | include/gpr_array_tp.inl:291 | a pointer loop `it != stop; it += step` cut after fuel iterations visits at most fuel slots |
| ArrayTp.PtrWalkUp | include/gpr_array_tp.inl:305-306 | walking up towards the bound, the loop visits exactly the slots in between |
| ArrayTp.PtrWalkDown | include/gpr_array_tp.inl:296-297 | walking down towards the bound, the loop visits exactly the slots in between |
| ArrayTp.PtrWalkDownAway | include/gpr_array_tp.inl:296-297 | walking down and away from the bound, the loop visits start, start-1, ... for as long as its budget lasts |
| ArrayTp.PtrWalkRunsAway | include/gpr_array_tp.inl:291 | a loop started on the wrong side of its bound uses up every iteration budget, so it never terminates |
| ArrayTp.ResizeLoopsAsWritten | include/gpr_array_tp.inl:282-311 | as written, the initialiser loop never stops when the array shrinks, nor the destructor loop when it grows; growing visits exactly the new slots |
| ArrayTp.RollbackAsWritten | include/gpr_array_tp.inl:293-299 | as written, the rollback after a failed initialiser never destroys slot size, although this call initialised it, and it runs away whenever the first initialisation fails, on an empty array too, destroying the live slots size-1, size-2, ... on its way |
| ArrayTp.FirstFail | include/gpr_array_tp.inl:291-301 | the first slot whose initialisation fails; every slot before it succeeds |
| ArrayTp.TpArray.constructor | include/gpr_array_tp.inl:130-135 | a template instance starts with size 0, capacity 0 and no block |
| ArrayTp.TpArray.Init | include/gpr_array_tp.inl:154-169 | size 0 and capacity c; a NULL block and success for 0; otherwise success exactly when the allocation succeeds, with a fresh block |
| ArrayTp.TpArray.Free | include/gpr_array_tp.inl:180-191 | unless the capacity is 0, every live slot goes to the destructor in slot order |
| ArrayTp.TpArray.EmptyIffNoContents | include/gpr_array_tp.inl:239-242 | empty holds exactly when there are no live elements |
| ArrayTp.TpArray.Reserve | include/gpr_array_tp.inl:255-269 | reserve never shrinks: a request within capacity changes nothing; otherwise the capacity becomes the request on success and stays put on failure; the contents are kept |
| ArrayTp.TpArray.Resize | include/gpr_array_tp.inl:282-311 | resize, corrected: capacity is grown when needed; growing initialises the new slots, and a failed initialiser destroys them again, last first, leaving the size alone; shrinking destroys the dropped slots |
| ArrayTp.TpArray.ResizeWithin | include/gpr_array_tp.inl:290-310 | the resize steps once the capacity suffices: the new size, or the old size and a rollback log when an initialiser fails |
| ArrayTp.TpArray.InitSlots | include/gpr_array_tp.inl:291-301 | the initialiser loop stops at the first failing slot, having initialised exactly the slots before it and kept the live ones |
| ArrayTp.TpArray.Clear | include/gpr_array_tp.inl:456-459 | clear is resize(0): size 0, the block kept, every live slot destroyed in order |
| ArrayTp.TpArray.ShrinkToFitAsWritten | include/gpr_array_tp.inl:323-336 | as written: the capacity is kept, and a successful realloc leaves a block of `size` bytes, which breaks the array's invariant and, for live elements of two bytes or more, is smaller than those elements |
| ArrayTp.TpArray.ShrinkToFit | include/gpr_array_tp.inl:323-336 | shrink_to_fit, corrected: the contents are kept, the capacity becomes the size on success, and the call fails only when a needed realloc fails |
| ArrayTp.TpArray.AtAsWritten | include/gpr_array_tp.inl:375-381 | as written, at returns NULL exactly for live slots |
| ArrayTp.TpArray.At | include/gpr_array_tp.inl:362-381 | at, corrected to its documented check: the slot exactly when it is live |
| ArrayTp.TpArray.Insert | include/gpr_array_tp.inl:490-506 | on success the contents become InsertAt(old, pos, e), and a full array first grows to size*3/2+1; a failed growth changes nothing |
| ArrayTp.TpArray.InsertWithin | include/gpr_array_tp.inl:499-505 | with a free slot, the later elements move one slot up and e lands at pos |
| ArrayTp.TpArray.Erase | include/gpr_array_tp.inl:516-525 | the element at pos is destroyed and the contents become RemoveAt(old, pos) |
| ArrayTp.TpArray.PushBack | include/gpr_array_tp.inl:540-543 | push_back is insert at the end: old + [e] on success, with the same growth rule |
| ArrayTp.TpArray.PopBack | include/gpr_array_tp.inl:552-555 | pop_back destroys the last element and drops it |
| ArrayTp.TpArray.Map | include/gpr_array_tp.inl:565-569 | map applies the callback to every live element in place, front to back |
| ArrayTp.Swap | include/gpr_array_tp.inl:469-474 | swap exchanges size, capacity and block, and so the contents |
| ArrayTp.StudentsFirstFour | tests/gpr_ut_array_tp.c:99-120 | init with capacity 4, two push_backs and two inserts at begin give [st3, st2, st0, st1] |
| ArrayTp.StudentsInserted | tests/gpr_ut_array_tp.c:121-124 | the insert before slot 2 finds the array full and grows it to 7; with the last insert the array is [st5, st3, st2, st4, st0, st1] |
| ArrayTp.StudentsScenario | tests/gpr_ut_array_tp.c:138-140 | erase(begin), pop_back and erase(begin+2) leave [st3, st2, st0] in the grown block |
| ArrTpl.ArrTpl.constructor | include/gpr_arrtpl.h:111-116 | an instance starts with size 0, capacity 0 and no block |
| ArrTpl.ArrTpl.Init | include/gpr_arrtpl.h:130-154 | size 0 and capacity c; capacity 0 gives a NULL block and success; otherwise false exactly when the allocation fails |
| ArrTpl.ArrTpl.Free | include/gpr_arrtpl.h:163-181 | nothing for capacity 0; otherwise the size live members go to the member deallocator, when defined, in order |
| ArrTpl.InitThenFree | tests/gpr_ut_arrtpl.c:68-72 | the test's init with capacity 5 succeeds, and free then releases no member |
| Bin.DigitValue | src/gpr_bin.c:44 | a character decodes to a value only when it is that value's upper-case hex digit |
| Bin.DigitValueOfDigit | src/gpr_bin.c:44 | every digit of the alphabet decodes back to its value |
| Bin.Hex | src/gpr_bin.c:46-57 | the hexlify text has two characters per byte |
| Bin.HexAt | src/gpr_bin.c:53-54 | byte i becomes the high-nibble digit at 2i and the low-nibble digit at 2i+1 |
| Bin.UnhexHex | src/gpr_bin.c:46-57 | decoding hexlify's output gives back the bytes |
| Bin.HexInjective | src/gpr_bin.c:46-57 | distinct byte areas give distinct hex texts |
| Bin.NibblesOfSignedChar | src/gpr_bin.c:53-54 | shifting and masking a sign-extended char yields the same two nibbles as the unsigned byte |
| Bin.Hexlify | src/gpr_bin.c:46-57 | exactly 2*size characters are written, equal to Hex of the first size bytes, and nothing past them |
| Buf.ToUInt | src/gpr_buf.c:125-134 | a pointer difference is reduced to `unsigned int`, unchanged when it is already in range |
| Buf.GprBuffer.Alloc | src/gpr_buf.c:60 | the storage gpr_buf_new allocates has exactly the requested number of bytes |
| Buf.GprBuffer.Reset | src/gpr_buf.c:74-86 | reset puts all three offsets back at the start and keeps the storage |
| Buf.GprBuffer.SizesUnderLayout | src/gpr_buf.c:125-156 | under the documented layout the sizes do not wrap: used = rest + consumed, free + end = size, and empty holds exactly when used is 0 |
| Buf.GprBuffer.UsedSizeWraps | src/gpr_buf.c:125-134 | with end before begin, the used size wraps round to a huge value and the buffer is not empty |
| Buf.New | src/gpr_buf.c:48-72 | NULL when either allocation fails; otherwise an empty buffer of the requested size with all offsets at the start |
| Buf.TwentyByteBuffer | tests/gpr_ut_buf.c:25-47 | a fresh 20-byte buffer has 20 free and 0 used bytes; after the end moves by 20 it has 20 used and none free |
| Builtin.Stored | src/gpr_builtin.c:34-47 | vsnprintf keeps a prefix of the text: all of it when it fits, exactly size-1 characters when it does not, and nothing for size 0 |
| Builtin.ScnprintfResult | src/gpr_builtin.c:34-47 | a negative error passes through; a length n below size is returned as is; a length that does not fit gives size-1, and 0 for size 0 |
| Builtin.ResultCountsStored | src/gpr_builtin.c:49-59 | the clamped result counts exactly the characters stored, and scnprintf returns what the v-variant returns |
| GprErr.ErrToStr | src/gpr_err.c:50-57 | code 0 names "Success", code 1 "Failure", and exactly the codes outside the table name "UNKNOWN" |
| GprErr.Raised | src/gpr_err.c:78-84 | the message is replaced, truncated to 512 characters, only when the buffer exists and the message is non-NULL and non-empty |
| GprErr.ErrStore.constructor | src/gpr_err.c:44 | the buffer pointer starts NULL |
| GprErr.ErrStore.Allocate | src/gpr_err.c:59-62 | the buffer is allocated, or NULL when malloc fails |
| GprErr.ErrStore.GetCmplErr | src/gpr_err.c:70-76 | "" while no buffer is allocated, the stored message otherwise |
| GprErr.ErrStore.Raise | src/gpr_err.c:78-84 | raise returns its error unchanged and updates the store as Raised says |
| KList.Entry.constructor | include/gpr_klist.h:97-103 | a new entry is a ring of one |
| KList.Entry.Init | include/gpr_klist.h:112-123 | init points both links of the entry back at itself |
| KList.Keys | include/gpr_klist.h:315 | the payloads CONTAINER_OF reaches from a run of entries, in order |
| KList.RingLinksMirror | include/gpr_klist.h:142-162 | in a ring every entry is its successor's predecessor and its predecessor's successor |
| KList.AddEntry | include/gpr_klist.h:142-162 | the four link writes of __list_add_entry, in source order, where later writes win when entries coincide |
| KList.DelEntry | include/gpr_klist.h:180-195 | __list_del_entry joins the two neighbours and touches nothing else |
| KList.AddBetween | include/gpr_klist.h:142-162 | adding between ring neighbours r[p] and its successor yields the ring InsertAt(r, p+1, entry) |
| KList.RingSpliced | include/gpr_klist.h:142-162 | the four links written around a new entry turn a ring into the ring with the entry inserted after position p |
| KList.HeadPositions | include/gpr_klist.h:212-255 | adding after the head puts the entry first among the entries, and adding before it puts the entry last |
| KList.PushFront | include/gpr_klist.h:212-225 | the entry lands right after the head, and the ring stays a ring; for the list head the entries become [entry] + old |
| KList.PushBack | include/gpr_klist.h:242-255 | the entry lands right before the head, and the ring stays a ring; for the list head the entries become old + [entry] |
| KList.Delete | include/gpr_klist.h:270-284 | the entry leaves the ring with the others in their order, and becomes a ring of one |
| KList.RingUnspliced | include/gpr_klist.h:180-195 | once an entry's neighbours point at each other, the others still form a ring |
| KList.EmptyIffAlone | include/gpr_klist.h:297-306 | the head is empty exactly when it is alone in its ring |
| KList.ForEach | include/gpr_klist.h:357 | forward iteration visits exactly the entries after the head, in ring order |
| KList.ForEachReverse | include/gpr_klist.h:365 | reverse iteration visits the entries after the head, last first |
| KList.InsertSorted | tests/gpr_ut_klist.c:59-89 | ordered insertion of a mark adds exactly one key |
| KList.InsertSortedPermutes | tests/gpr_ut_klist.c:59-89 | ordered insertion keeps every key and adds the new one |
| KList.InsertSortedAt | tests/gpr_ut_klist.c:73-82 | inserting before the first greater key, after every key not above it, is ordered insertion |
| KList.InsertSortedAscending | tests/gpr_ut_klist.c:59-89 | ordered insertion keeps ascending marks ascending |
| KList.InsertByMark | tests/gpr_ut_klist.c:59-89 | the test's insert_student_by_mark returns size+1, keeps the ring, and the marks after the head become InsertSorted(old marks, mark) |
| KList.InsertByMarkKeys | tests/gpr_ut_klist.c:73-82 | pushing back before the first greater mark gives the ordered insertion of the marks |
| KList.AddStudent | tests/gpr_ut_klist.c:111-116 | one fresh student inserted by mark keeps the ring and inserts its mark in order |
| KList.StudentsFirstThree | tests/gpr_ut_klist.c:111-113 | marks 0, 20 and 8 inserted by mark give [0, 8, 20] |
| KList.StudentsFirstFour | tests/gpr_ut_klist.c:114 | then mark 14 gives [0, 8, 14, 20] |
| KList.StudentsInserted | tests/gpr_ut_klist.c:115-116 | then marks 17 and 2 give the ascending [0, 2, 8, 14, 17, 20] |
| KList.LaterMarks | tests/gpr_ut_klist.c:114-116 | the ordered insertions of marks 14, 17 and 2 |
| KList.StudentsScenario | tests/gpr_ut_klist.c:111-137 | forward iteration sees ascending marks, reverse iteration descending marks, and deleting list.next removes the lowest mark |
| GprList.PushFront | src/gpr_list.c:64-77 | the entry lands right after the head, and the ring stays a ring; for the list head the entries become [entry] + old |
| GprList.PushBackAsWritten | src/gpr_list.c:79-92 | as written, rings of one or two entries get the entry right after the head; on longer rings the forward walk becomes head, entry, last entry, head, and the first entry's predecessor no longer links forward to it |
| GprList.PushBack | src/gpr_list.c:79-92 | push_back, corrected to its documented "add before head": the entries become old + [entry], and the ring stays a ring |
| GprList.PushBackAsWrittenScenario | src/gpr_list.c:91 | two students pushed back, then a third pushed back as written: the ring is inconsistent |
| GprList.TwoPushedBack | src/gpr_list.c:79-92 | two entries pushed back with the corrected push_back form the ring [head, a, b] |
| GprList.OnePushedBack | src/gpr_list.c:79-92 | one entry pushed back forms the ring [head, a] |
| GprList.AddStudent | tests/gpr_ut_list.c:74-79 | push_front of a fresh student prepends its mark and keeps the ring |
| GprList.StudentsFirstThree | tests/gpr_ut_list.c:74-76 | three push_fronts give marks [8, 20, 0] |
| GprList.StudentsScenario | tests/gpr_ut_list.c:74-83 | six push_fronts are walked in reverse insertion order |
| DlkList.Node.constructor | src/gpr_dlklist.c:482-501 | create_node gives a node with the data and no links |
| DlkList.DataOfInsertAt | src/gpr_dlklist.c:237-242 | linking a node into the chain inserts its data at the same position |
| DlkList.DataOfRemoveAt | src/gpr_dlklist.c:335-339 | unlinking a node removes its data from the same position |
| DlkList.ChainBridged | src/gpr_dlklist.c:336-337 | bridging the neighbours over a node leaves a well-linked chain without it |
| DlkList.ChainSpliced | src/gpr_dlklist.c:238-241 | the four writes of insert leave a well-linked chain with the node at pos |
| DlkList.DlkList.constructor | src/gpr_dlklist.c:49-64 | a created list is empty and valid |
| DlkList.DlkList.IsContained | src/gpr_dlklist.c:544-560 | is_contained holds exactly when the data occurs in the list |
| DlkList.DlkList.Search | src/gpr_dlklist.c:363-388 | the first node whose data the predicate accepts and its position; NULL and position 0 when none does |
| DlkList.DlkList.Reset | src/gpr_dlklist.c:70-94 | every data pointer goes to the destructor head to tail, and the list is left empty with NULL head and tail |
| DlkList.DlkList.LinkFirst | src/gpr_dlklist.c:137-151 | the new node becomes the head, and the tail of an empty list; the invariant is kept |
| DlkList.DlkList.LinkLast | src/gpr_dlklist.c:178-192 | the new node becomes the tail, and the head of an empty list; the invariant is kept |
| DlkList.DlkList.LinkBefore | src/gpr_dlklist.c:229-242 | the walk and the four link writes put the node at pos, keeping the invariant |
| DlkList.DlkList.UnlinkFirst | src/gpr_dlklist.c:267-272 | the second node becomes the head, and the first node's data is returned for the destructor |
| DlkList.DlkList.UnlinkLast | src/gpr_dlklist.c:297-302 | the last but one node becomes the tail, and the last node's data is returned for the destructor |
| DlkList.DlkList.UnlinkAt | src/gpr_dlklist.c:327-339 | the walk and the bridge remove exactly the node at pos, keeping the invariant |
| DlkList.DlkList.WalkTo | src/gpr_dlklist.c:229-235 | the scout loop stops on the node at pos |
| DlkList.DlkList.PushFront | src/gpr_dlklist.c:115-154 | NULL data gives INVALID_PARAMETER, a duplicate KO, a failed allocation MEMORY_FAILURE, each leaving the list unchanged; otherwise [data] + old |
| DlkList.DlkList.PushBack | src/gpr_dlklist.c:156-195 | the same error cases as push_front; otherwise old + [data] |
| DlkList.DlkList.Insert | src/gpr_dlklist.c:197-245 | NULL data or pos > size gives INVALID_PARAMETER; the ends delegate to the pushes; otherwise the contents become InsertAt(old, pos, data) |
| DlkList.DlkList.PopFront | src/gpr_dlklist.c:247-275 | an empty list gives KO and is unchanged; otherwise the first data is dropped and goes to the destructor |
| DlkList.DlkList.PopBack | src/gpr_dlklist.c:277-305 | an empty list gives KO and is unchanged; otherwise the last data is dropped and goes to the destructor |
| DlkList.DlkList.Remove | src/gpr_dlklist.c:307-342 | pos >= size gives INVALID_PARAMETER, even on an empty list; otherwise the contents become RemoveAt(old, pos) and the removed data is destroyed |
| DlkList.Create | src/gpr_dlklist.c:49-64 | a fresh empty list, or NULL when the allocation fails |
| DlkList.EmptyIffNoContents | src/gpr_dlklist.c:394-410 | on a valid list is_empty, size 0 and empty contents coincide, and get_size counts the elements |
| DlkList.StudentsPushed | tests/gpr_ut_dlklist.c:89-96 | two push_backs and two push_fronts give [st3, st2, st0, st1] |
| DlkList.StudentsInserted | tests/gpr_ut_dlklist.c:97-100 | insert at 2 and a push_front give [st5, st3, st2, st4, st0, st1] |
| DlkList.StudentsScenario | tests/gpr_ut_dlklist.c:89-108 | Julius is found at position 2 as the test asserts; pushing a student a second time, which the test does not do, is refused with KO by the containment check of push_back (src/gpr_dlklist.c:168-169) |
| Tree.TNode.constructor | src/gpr_tree.c:61-81 | a new node has no links, is not linked to, has an empty value and its label kept to 128 characters |
| Tree.Forest.constructor | src/gpr_tree.c:61-81 | no node has been allocated yet, so the links trivially form trees |
| Tree.IsContainedIffReaches | src/gpr_tree.c:368-389 | is_contained holds exactly when some number of child or sibling steps leads from the first node to the second |
| Tree.ContainedSteps | src/gpr_tree.c:368-389 | every is_contained answer is witnessed by a walk of some length |
| Tree.StepsContained | src/gpr_tree.c:368-389 | every walk through the links is seen by is_contained |
| Tree.LastSibling | src/gpr_tree.c:304-310 | the end of a sibling chain has no sibling and is contained from the chain's start |
| Tree.StrnEqualShort | src/gpr_tree.c:404-446 | strncmp over the buffer size is plain equality when the stored text is shorter than the buffer |
| Tree.SearchBy | src/gpr_tree.c:404-446 | a search result matches and is contained from the origin |
| Tree.Preorder | src/gpr_tree.c:404-446 | the visiting order of the search starts at the origin and stays inside the forest |
| Tree.FirstOrNull | src/gpr_tree.c:404-446 | the first matching node of a sequence, or NULL exactly when none matches |
| Tree.FirstOrNullAppend | src/gpr_tree.c:404-446 | the first match in a concatenation is that of its first part, else that of its second part |
| Tree.SearchIsFirstInPreorder | src/gpr_tree.c:342-350 | search by label or value returns the first match of the preorder walk, and NULL exactly when none matches |
| Tree.SearchAfterOrigin | src/gpr_tree.c:404-446 | past a non-matching origin the search looks in the child's subtree first, then from the sibling |
| Tree.LoneContainsOnlyItself | src/gpr_tree.c:368-389 | a node without links contains only itself |
| Tree.NewNode | src/gpr_tree.c:61-81 | NULL exactly when allocation fails; otherwise a fresh unlinked node with an empty value and the label kept to 128 characters, and the links still form trees if they did |
| Tree.InitNode | src/gpr_tree.c:205-218 | the label, value and both links are cleared, and the forest stays acyclic |
| Tree.SetNodeValue | src/gpr_tree.c:321-340 | the value is kept to 256 characters, nothing else changes, and the result is OK |
| Tree.LinkSibling | src/gpr_tree.c:310 | setting a sibling link to a node that does not lead back keeps the forest acyclic, and keeps it a set of trees when the node had no parent |
| Tree.LinkChild | src/gpr_tree.c:280 | setting a child link to a node that does not lead back keeps the forest acyclic, and keeps it a set of trees when the node had no parent |
| Tree.ChildOwner | src/gpr_tree.c:269-281 | a new child's link goes on origin when it has no child, else on the last of its children |
| Tree.AddSibling | src/gpr_tree.c:286-319 | add_sibling, corrected: LOOP_DETECTED exactly when the sibling already has a parent or leads back to origin or to the chain's last node; otherwise that node's sibling link is set and nothing else changes; trees stay trees |
| Tree.AddChild | src/gpr_tree.c:251-284 | add_child, corrected: LOOP_DETECTED exactly when the child already has a parent or leads back to origin or to the node whose link changes; otherwise the first-child or last-sibling link is set and nothing else changes; trees stay trees |
| Tree.AddSiblingAsWritten | src/gpr_tree.c:286-319 | as written, the check asks only whether the sibling leads back to origin, and the link is set on the chain's last node |
| Tree.AddChildAsWritten | src/gpr_tree.c:251-284 | as written, the check asks only whether the child leads back to origin |
| Tree.TwoNodes | src/gpr_tree.c:61-81 | two fresh unlinked nodes in a new forest |
| Tree.AddChildTwiceAsWritten | src/gpr_tree.c:264-276 | adding the same child twice as written succeeds and links the child's sibling to itself |
| Tree.AddChildTwice | src/gpr_tree.c:251-284 | with the corrected check the second addition reports LOOP_DETECTED and the forest stays acyclic |
| Tree.AddSiblingTwiceAsWritten | src/gpr_tree.c:299-311 | adding the same sibling twice as written links the sibling to itself |
| Tree.AddSiblingTwice | src/gpr_tree.c:286-319 | with the corrected check the second addition reports LOOP_DETECTED |
| Tree.NewVNode | src/gpr_tree.c:83-105 | as new_node, with the value also set and kept to 256 characters |
| Tree.NewChild | src/gpr_tree.c:107-130 | NULL exactly when allocation fails; otherwise a fresh node linked as origin's last child, nothing else changed |
| Tree.NewVChild | src/gpr_tree.c:132-154 | as new_child, with the value also set |
| Tree.NewSibling | src/gpr_tree.c:156-179 | NULL exactly when allocation fails; otherwise a fresh node linked at the end of origin's sibling chain |
| Tree.NewVSibling | src/gpr_tree.c:181-203 | as new_sibling, with the value also set |
| Tree.ConvertToXml | src/gpr_tree.c:352-355 | the converter (defined as gpt_tree_convert_to_xml) is not implemented and always answers NOT_IMPLEMENTED |
| Tree.FreeOrder | src/gpr_tree.c:232-249 | the origin is released last, after its siblings' and its children's subtrees |
| Tree.FreeOrderPermutesPreorder | src/gpr_tree.c:232-249 | free releases exactly the nodes the preorder walk visits, each as often as the walk visits it |
| Tree.ContainedRank | src/gpr_tree.c:368-389 | a node contained from another is allocated and ranks no higher, so the walks below it end |
| Tree.InPreorderIffContained | src/gpr_tree.c:404-446 | the preorder walk from a node visits exactly the nodes is_contained finds from it |
| Tree.StepBack | src/gpr_tree.c:368-389 | the last step of a walk through the links comes from a node that links to its end |
| Tree.StepsRank | src/gpr_tree.c:368-389 | every step through a link lowers the rank, so a walk of k > 0 steps never returns to its start |
| Tree.Converge | src/gpr_tree.c:251-319 | in trees built by the corrected add_child and add_sibling, two walks that meet start on one path |
| Tree.NoWalkBetweenLinks | src/gpr_tree.c:251-319 | in those trees, neither of a node's two links leads to the other |
| Tree.ChildAndSiblingDisjoint | src/gpr_tree.c:232-249 | in those trees, nothing is reached both from a node's child and from its sibling |
| Tree.PreorderOnce | src/gpr_tree.c:404-446 | in those trees, the preorder walk visits any node at most once |
| Tree.NotBelowItself | src/gpr_tree.c:404-446 | a node is not visited by the walk from its child or from its sibling |
| Tree.FreedOnce | src/gpr_tree.c:232-249 | in those trees, free releases every node contained from the origin exactly once and no other node |
| Tree.ParentOfTwo | src/gpr_tree.c:107-130 | new_node and two new_child calls build a root holding a and then b, as trees |
| Tree.ParentsOfC | src/gpr_tree.c:107-130 | a third new_child puts c under a, and the links still form trees |
| Tree.SharedChildAsWritten | src/gpr_tree.c:251-284 | as written, add_child(b, c) on a node c that already has the parent a returns OK, and free then releases c twice |
| Tree.FreedTwice | src/gpr_tree.c:232-249 | free over r, a, b, c with c under both a and b releases c, b, c, a, r in that order |
| Tree.SharedChildRefused | src/gpr_tree.c:251-284 | with the corrected add_child the same call is LOOP_DETECTED, and free releases c once |
| Tree.BuildAnswer | tests/gpr_ut_tree.c:106-112 | the Big Bang holds the Universe, which holds the answer with value "42" |
| Tree.BuildAsteroids | tests/gpr_ut_tree.c:68 | a new child of the Universe, which already has the answer, becomes the answer's sibling |
| Tree.BuildUniverse | tests/gpr_ut_tree.c:68 | Pluto becomes the asteroids' only child with its value, and the forest stays acyclic |
| Tree.UniverseScenario | tests/gpr_ut_tree.c:128-152 | search by value "42" finds the answer, search by label finds Pluto, and add_child(pluto, big_bang) is LOOP_DETECTED |
| Str.TrimLeft | src/gpr_str.c:85-102 | the string without its leading whitespace: a suffix whose first character is not whitespace, and only whitespace was skipped |
| Str.TrimRight | src/gpr_str.c:104-125 | the string without its trailing whitespace: a prefix whose last character is not whitespace, and only whitespace was cut |
| Str.ConvertChars | src/gpr_str.c:43-62 | min(num, strlen(src)) characters are converted into dst, nothing else is written, and dst may be src |
| Str.ToLower | src/gpr_str.c:43-62 | tolower converts min(num, strlen) characters, adds no NUL, and returns the count |
| Str.ToUpper | src/gpr_str.c:64-83 | toupper converts min(num, strlen) characters, adds no NUL, and returns the count |
| Str.LTrim | src/gpr_str.c:85-102 | the returned index starts TrimLeft of the string, and the buffer is not modified |
| Str.RTrim | src/gpr_str.c:104-125 | rtrim, corrected: the string becomes TrimRight of itself by one NUL write, and an all-whitespace string becomes empty |
| Str.RTrimStopAsWritten | src/gpr_str.c:119-121 | the backward scan as written stops on the last non-whitespace character, or runs before the buffer |
| Str.RTrimStopAgrees | src/gpr_str.c:119-122 | where a non-whitespace character exists, the scan as written puts its NUL where TrimRight ends |
| Str.RTrimAllSpaceUnderflows | src/gpr_str.c:119-121 | on "   " the scan as written reads the byte before the buffer |
| Str.Trim | src/gpr_str.c:127-137 | trim is ltrim of rtrim: TrimLeft(TrimRight(s)) |
| Str.NewCString | tests/gpr_ut_str.c:22-25 | a buffer filled with a text and its NUL holds that text |
| Str.TrimRightDropsTrailingSpace | src/gpr_str.c:104-125 | whitespace after a non-whitespace character is exactly what rtrim removes |
| Str.TrimLeftDropsLeadingSpace | src/gpr_str.c:85-102 | whitespace before a non-whitespace character is exactly what ltrim skips |
| Str.HelloWorldTrims | tests/gpr_ut_str.c:33 | trimming "   Hello World   " gives "Hello World" |
| Str.TrimHelloWorld | tests/gpr_ut_str.c:25-33 | the test's buffer is trimmed in place to "Hello World" |
| Log.LevelToStr | src/gpr_log.c:70-79 | each level names itself, and exactly the values outside the levels name "UNKNOWN" |
| Log.Logger.constructor | src/gpr_log.c:39 | the default level starts at INFO |
| Log.Logger.Configure | src/gpr_log.c:45-68 | a failed redirection gives KO; DEFAULT keeps the level; an invalid level gives INVALID_PARAMETER and keeps it; a valid level becomes the default |
| Log.Logger.MsgResult | src/gpr_log.c:81-125 | -1 for a NULL argument or negative line; 0 when the level is below the default; never more than 512; positive only at or above the default |
| Log.DebugShownAfterConfigure | tests/gpr_ut_log.c:16-59 | a DEBUG message is suppressed at the initial level and goes through once DEBUG is configured |
| Grapher.Span | extras/graph/grapher.py:45 | the end of the longest whitespace or non-whitespace run from i |
| Grapher.SpanUnique | extras/graph/grapher.py:45 | any maximal run from i ends where Span says |
| Grapher.IncludeToken | extras/graph/grapher.py:45 | a line yields at most one token, non-empty and without whitespace |
| Grapher.ScannedIsDirective | extras/graph/grapher.py:45 | what the scanner finds is a token the pattern `^#\s*include\s+(\S+)` captures |
| Grapher.DirectiveIsScanned | extras/graph/grapher.py:45 | whatever the pattern captures, the scanner finds |
| Grapher.IncludeTokenIff | extras/graph/grapher.py:45 | the scanner finds exactly the pattern's token, and nothing on a line the pattern does not match |
| Grapher.Strip | extras/graph/grapher.py:45 | `x[1:-1]` drops the first and last characters by position, giving "" when fewer than two |
| Grapher.StripBracketed | extras/graph/grapher.py:45 | stripping a quoted or angle-bracketed name gives the name |
| Grapher.IncludeList | extras/graph/grapher.py:43-45 | a file yields at most one include per line |
| Grapher.IncludeListAppend | extras/graph/grapher.py:45 | includes keep line order, with duplicates: the includes of two blocks are the first's then the second's |
| Grapher.IncludeListOfLine | extras/graph/grapher.py:45 | a directive line contributes exactly its stripped token |
| Grapher.DelimitedInclude | extras/graph/grapher.py:45 | `#include "name"` or `#  include <name>` yields the name |
| Grapher.LastIndex | extras/graph/grapher.py:39 | the last occurrence of a character, -1 when there is none |
| Grapher.SplitExtSpec | extras/graph/grapher.py:77 | splitext gives root + ext == path, and the extension is non-empty exactly at an extension dot of the base name, where it starts |
| Grapher.Base | extras/graph/grapher.py:39 | a module name is a prefix of the include |
| Grapher.FileTargets | extras/graph/grapher.py:33-35 | the file-mode targets are the includes that pass the filter, never more |
| Grapher.ModuleTargets | extras/graph/grapher.py:39-41 | the module-mode targets are the bases of includes passing the full-name filter, never the file's own module |
| Grapher.FileTargetsUnfiltered | extras/graph/grapher.py:33 | without the filter every include is a target |
| Grapher.FileFilterIsSubsequence | extras/graph/grapher.py:35 | the known-only file-mode targets are an order-preserving subsequence of the unfiltered ones |
| Grapher.ModuleFilterIsSubsequence | extras/graph/grapher.py:41 | the known-only module-mode targets are an order-preserving subsequence of the unfiltered ones |
| Grapher.IndexOf | extras/graph/grapher.py:65 | the first occurrence of a character, |s| when there is none |
| Grapher.Split | extras/graph/grapher.py:65 | the pieces between separators hold no separator |
| Grapher.SplitJoin | extras/graph/grapher.py:65 | splitting a join on its one-character separator gives the pieces back |
| Grapher.Quoted | extras/graph/grapher.py:33 | each target wrapped in double quotes |
| Grapher.EdgeLine | extras/graph/grapher.py:33 | the edge line is the head, the quoted targets joined by spaces, and `}` |
| Grapher.EdgeLineDecodes | extras/graph/grapher.py:33 | the quoted targets can be read back from an edge line when none holds a space |
| Grapher.DirPath | extras/graph/grapher.py:60 | a directory gets `/` appended unless it already ends in one |
| Grapher.DirPathIdempotent | extras/graph/grapher.py:60 | normalising a directory twice changes nothing |
| Grapher.DirFiles | extras/graph/grapher.py:75-77 | one file per listed entry, each split into name + ext and carrying the directory path |
| Grapher.LibraryFiles | extras/graph/grapher.py:59-61 | every file carries a `/`-terminated directory path |
| Grapher.TerminatedIsJoin | extras/graph/grapher.py:99-115 | writing each line and a newline is joining the lines with newlines and ending with one |
| Grapher.GraphLibrary.constructor | extras/graph/grapher.py:52-61 | the library keeps its options, and its files are those of every directory in argument order |
| Grapher.GraphLibrary.FileLines | extras/graph/grapher.py:63-67 | one file-mode line per file, in scan order, filtered when existonly |
| Grapher.GraphLibrary.ModuleLines | extras/graph/grapher.py:69-73 | one module-mode line per file, in scan order, filtered when existonly |
| Grapher.GraphLibrary.StrSplitsIntoFileLines | extras/graph/grapher.py:63-67 | the library text splits back into one edge line per file |
| Grapher.GraphLibrary.Render | extras/graph/grapher.py:93-116 | render writes the header, the mode's lines each with a newline, and `}` |
| Grapher.GraphLibrary.WriteFileLines | extras/graph/grapher.py:101-106 | the file-mode loop writes each file's edge line and a newline, in scan order |
| Grapher.GraphLibrary.WriteModuleLines | extras/graph/grapher.py:108-113 | the module-mode loop writes each file's module line and a newline, in scan order |
| Grapher.GraphLibrary.RenderIsStrPlusNewline | extras/graph/grapher.py:99-115 | in file mode the DOT body is str(library) followed by a newline |
| Grapher.GraphLibrary.RenderIsReprPlusNewline | extras/graph/grapher.py:99-115 | in module mode the DOT body is repr(library) followed by a newline |

## Left out

- The socket modules (src/gpr_net.c, src/gpr_network.c) and the clock module (src/gpr_time.c) are not part of this model, because they are OS plumbing. include/gpr_bit.h has no implementation to model, and the files under models/ are empty templates.
- The unit tests' call shapes that target older interfaces are not followed: the tests' gpr_array_create, which the library names gpr_array_new, an extra search argument, and the hexlify argument order in tests/gpr_ut_bin.c. Only the element orders and positions the tests assert are modelled.
- Every `malloc`/`realloc`/`free` outcome is a success flag. A successful `free` is not modelled beyond the order of the destructor calls it makes.
- Element callbacks (destructors, initialisers, search predicates) are uninterpreted functions or logs of the arguments they receive. What they do to the pointed-to data is not modelled.
- The containers' error returns (gpr_array, gpr_dlklist, gpr_list, gpr_tree and the gpr_klist macros) do not update GprErr's message store: only the code is modelled. In the C code each `gpr_err_raise(code, "…")` on an error path also overwrites Cmpl_Err_Msg when the buffer is allocated (src/gpr_err.c:78-84); GprErr.Raised and GprErr.ErrStore.Raise model that write on its own. The success paths raise with a NULL message and leave the store unchanged.
- printf-style formatting (the varargs of `gpr_tree_new_vnode`, `gpr_tree_set_node_value` and `gpr_err_raise`) takes the already formatted text. vsnprintf itself is a reported length.
- `NULL` container or node arguments are not modelled. Their checks exist only in DEBUG builds, or the model's objects are never NULL.
- gpr_array_free and gpr_dlklist_free are reset followed by releasing the record. The release is not modelled.
- gpr_array_map and gpr_dlklist_map only call a callback on each element, which has no effect on the container.
- PtrArray.GetElem has no contract beyond indexing the contents: it is the same as `elem[index]`.
- The accessors of gpr_dlklist (get_head, get_tail, node_has_data, node_data, node_prev, node_next) read one field each. The model reads the fields directly.
- The `front`, `back`, `begin` and `end` of gpr_array_tp are the same pointer arithmetic as `get` (slot 0, size-1, 0 and size).
- `GPR_REALLOC_FUNC` is a custom allocator hook of gpr_array_tp. It is treated as realloc.
- GPR_KLIST_FOR_EACH_ENTRY_SAFE is not modelled: it only differs from FOR_EACH_ENTRY by reading the next entry before the body runs. CONTAINER_OF and the other entry macros are pointer arithmetic. An entry's payload is its `key`.
- gpr_list_remove is declared in its header but never defined.
- gpr_err_free_cmpl_err is not modelled: it releases the buffer without resetting the pointer, so memory safety after it is outside this model.
- gpr_tree_free_node and gpr_tree_free are modelled only as the order in which nodes are released (Tree.FreeOrder).
- The `gpr_log_configure` redirection is a success flag. The date and the header and message texts of `gpr_log_msg` are given as their lengths. The output itself is not modelled.
- In the grapher, reading files, `os.scandir`, writing the `.gv` file, running `dot`, the viewer launch and argparse are not modelled. A directory listing arrives as a function from path to its regular files (name and lines).
- Grapher.IncludeToken reads one line at a time. Python's `\s` is taken as the set `str.isspace` accepts: the ASCII whitespace characters, U+001C-U+001F, U+0085, U+00A0, U+1680, U+2000-U+200A, U+2028, U+2029, U+202F, U+205F and U+3000.
- Str.ToLower and Str.ToUpper use the "C" locale.
- Str.ConvertChars (and so Str.ToLower and Str.ToUpper) covers a `dst` separate from `src` or equal to it. A `dst` that overlaps `src` at an offset (`dst == src + k`) is not modelled: Dafny arrays have no pointer arithmetic, and the C loop would then read characters it has already written.
- Tree.UniverseScenario: the unit test's tree is trimmed to the nodes its checks reach (the Big Bang, the Universe, the answer, the asteroids and Pluto), with the asteroids as the Universe's last child. The solar system, the Milky Way and Andromeda are not built, so the path to Pluto is shorter than in the test.
- Tree.SearchBy compares strings as strncmp does only for stored texts without NUL characters.
- Tree.ConvertToXml carries the name include/gpr_tree.h:296 declares, gpr_tree_convert_to_xml. src/gpr_tree.c:352 defines the body under the misspelt name gpt_tree_convert_to_xml, so the declared function has no definition and a caller would fail to link. The model gives the defined body the declared name.
- The `linked` mark on Tree.TNode and the ghost `parent` map of Tree.Forest are not in the C node. The corrected add_child and add_sibling use the mark to refuse a node that already has a parent.

## Findings

| source | as written | input that shows it | evidently intended | confidence | as-written member | corrected member |
|---|---|---|---|---|---|---|
| src/gpr_list.c:91 | push_back calls `list_add_entry(new, head, head->prev)`, which makes the head the new entry's predecessor | a ring [head, a, b] and push_back(c, head): head.next becomes c, c.next becomes b, a drops out of the forward walk while a.prev is still head | add before the head, as gpr_klist_push_back does with `(new, head->prev, head)` | high, not executed | GprList.PushBackAsWritten, GprList.PushBackAsWrittenScenario | GprList.PushBack |
| src/gpr_tree.c:265 | add_child checks only whether the child leads back to origin, but the link is set on origin's last child | add_child(a, b) twice on two unlinked nodes: the second call passes the check and sets b.sibling = b | also refuse when the child leads to the node whose link changes | high, not executed | Tree.AddChildAsWritten, Tree.AddChildTwiceAsWritten | Tree.AddChild, Tree.AddChildTwice |
| src/gpr_tree.c:251-319 | add_child and add_sibling accept a node that already hangs from a link, so two links can lead to one node, and gpr_tree_free releases it once per link | new_node r, new_child(r, "a"), new_child(r, "b"), new_child(a, "c"), then add_child(b, c) returns OK and free(r) releases c, b, c, a, r: c twice | refuse a node that already has a parent, so that free releases each node once | medium, not executed | Tree.AddChildAsWritten, Tree.SharedChildAsWritten, Tree.FreedTwice | Tree.AddChild, Tree.FreedOnce, Tree.SharedChildRefused |
| src/gpr_tree.c:300 | add_sibling checks only whether the sibling leads back to origin, but the link is set on the chain's last node | add_sibling(a, b) twice on two unlinked nodes: the second call sets b.sibling = b | also refuse when the sibling leads to the chain's last node | high, not executed | Tree.AddSiblingAsWritten, Tree.AddSiblingTwiceAsWritten | Tree.AddSibling, Tree.AddSiblingTwice |
| include/gpr_array_tp.inl:377-378 | at returns NULL when `id < size` | at(0) on an array of one element returns NULL, and at(5) returns slot 5 | return the slot exactly when it is live, as its "validity of the position is checked" note says | high, not executed | ArrayTp.TpArray.AtAsWritten | ArrayTp.TpArray.At |
| include/gpr_array_tp.inl:328 | shrink_to_fit asks realloc for `size` bytes and keeps the capacity | size 1, capacity 4, 8-byte elements: the block shrinks to 1 byte while one 8-byte element is live | realloc to size * sizeof(T) and set the capacity to the size | high, not executed | ArrayTp.TpArray.ShrinkToFitAsWritten | ArrayTp.TpArray.ShrinkToFit |
| include/gpr_array_tp.inl:291-306 | resize runs the initialiser loop from size up to the new size and the destructor loop from the new size up to size, whichever way the size moves; the rollback stops before slot size | with an initialiser and a destructor defined, resize(1) on size 3 starts the initialiser loop at slot 3 and it never meets slot 1; an initialiser failing on slot 2 of size 0 leaves slot 0 initialised | initialise only when growing and destroy only when shrinking; roll back every slot this call initialised | high, not executed | ArrayTp.ResizeLoopsAsWritten, ArrayTp.RollbackAsWritten | ArrayTp.TpArray.Resize |
| src/gpr_str.c:120 | rtrim's `while (isspace(*--end))` has no stop at the start of the string | "   ": the scan passes index 0 and reads the byte before the buffer | stop at the start, so an all-whitespace string becomes empty | high, not executed | Str.RTrimStopAsWritten, Str.RTrimAllSpaceUnderflows | Str.RTrim |
