# cmn_headers core in Dafny

This project models three header-only C utilities from a collection of common headers:

- **dlist.h**: an intrusive circular doubly-linked list. A list is a head entry (`struct dlist`)
  whose `next` is the first element and whose `prev` is the last. Element entries are
  embedded in the user's structures. Together the head and the elements form one ring.
  The model is imperative (`dlist.dfy`, module `DLists`):
  - `Entry` is a class with mutable `next`/`prev` fields, and `DList` is a class holding a
    head entry and a ghost sequence `Elems` of the elements in order.
  - `Valid()` says that `[head] + Elems` is a ring of distinct entries, linked forward by
    `next` and backward by `prev`.
  - Every operation rewrites the links in place, as the C code does. Its contract gives the
    new `Elems` in terms of the old ones and re-establishes `Valid()`. Its `modifies` clause
    names exactly the fields the C code writes.
- **bswaps.h**: byte-order reversal (`bswap2/4/8`) and half exchange (`hswap2/4/8`) of 16-,
  32- and 64-bit unsigned integers. These are pure `bv16`/`bv32`/`bv64` functions in
  `bswaps.dfy`, module `Bswaps`. Each is specified by what it does to the word's sequence of
  bytes (or halves), and proved to be an involution.
- **tagged_ptr.h**: pointer tagging, which stores a small tag in the low bits an aligned
  pointer always has clear. This is pure `bv64` arithmetic in `tagged_ptr.dfy`, module
  `TaggedPtr`.
  - A `Target` gives the pointer width (32 or 64) and whether the compiler sign-extends a
    pointer converted to `unsigned long long`. `PTR_VALUE_MASK` exists to undo that
    extension.
  - The lemmas give the round trips: the tag put in is the tag read out, and clearing it
    gives the pointer back.
  - `IsAligned` says that the address, read as an unsigned number, is a multiple of the
    alignment. `ModIsMask` proves that for a power-of-two alignment the bits the C code
    masks with `align - 1` are exactly that remainder.

`seqs.dfy` (module `Seqs`) holds sequence reversal, which the byte-swap contracts and
backward list iteration both use.

## Model

| member | source | states |
|---|---|---|
| Bswaps.BSwap2 | bswaps.h:60-71 | the bytes of the result are the bytes of x in reverse order |
| Bswaps.BSwap4 | bswaps.h:73-86 | the four bytes of the result are those of x reversed: byte k of the result is byte 3-k of x |
| Bswaps.BSwap8 | bswaps.h:88-105 | the eight bytes of the result are those of x reversed: byte k of the result is byte 7-k of x |
| Bswaps.HSwap2 | bswaps.h:107-111 | hswap2 is bswap2: its two halves (its bytes) come out exchanged |
| Bswaps.HSwap4 | bswaps.h:113-120 | the 16-bit halves of the result are those of x exchanged |
| Bswaps.HSwap8 | bswaps.h:122-129 | the 32-bit halves of the result are those of x exchanged |
| Bswaps.BSwap2Involution | bswaps.h:60-71 | swapping the bytes of a 16-bit value twice gives it back |
| Bswaps.BSwap4Involution | bswaps.h:73-86 | swapping the bytes of a 32-bit value twice gives it back |
| Bswaps.BSwap8Involution | bswaps.h:88-105 | swapping the bytes of a 64-bit value twice gives it back; derived from the byte-reversal contract, since reversal is its own inverse and a word is determined by its bytes |
| Bswaps.HSwapInvolutions | bswaps.h:113-129 | exchanging the halves of a 32- or 64-bit value twice gives it back |
| TaggedPtr.ValueMask | tagged_ptr.h:24-26 | PTR_VALUE_MASK has exactly the low pointer-width bits set: all ones for 64-bit pointers, the low 32 bits for 32-bit pointers |
| TaggedPtr.Widen | tagged_ptr.h:45 | converting a pointer to `unsigned long long`, with zero or sign extension, and then masking with PTR_VALUE_MASK gives back the pointer's bits |
| TaggedPtr.AddTag | tagged_ptr.h:34-51 | after masking, ptr_add_tag_ is the pointer with the tag ORed in, whether or not the conversion sign-extended |
| TaggedPtr.ClearTags | tagged_ptr.h:59-76 | ptr_clear_tags_ is the pointer with its bits below the alignment cleared |
| TaggedPtr.GetTags | tagged_ptr.h:84-99 | ptr_get_tags_ is the pointer's bits below the alignment, as an unsigned |
| TaggedPtr.MakeTagged | tagged_ptr.h:107-110 | the result of ptr_make_tagged_ fits the pointer width; when value and tag share no bits, their sum is their OR |
| TaggedPtr.AddTagFits | tagged_ptr.h:45 | a tagged pointer still fits the pointer width |
| TaggedPtr.ClearTagsAligned | tagged_ptr.h:70 | a pointer with its tags cleared fits the pointer width and, for a power-of-two alignment, its address is a multiple of the alignment as an unsigned number |
| TaggedPtr.TagRoundTrip | tagged_ptr.h:127-132 | for an aligned pointer and 0 < tag < align (align a power of two), reading the tags after adding tag gives tag, and clearing them gives the pointer back |
| TaggedPtr.GetTagsBound | tagged_ptr.h:84-99 | the tags read are at most align - 1 |
| TaggedPtr.ClearedHasNoTags | tagged_ptr.h:59-99 | a pointer whose tags were cleared reads back no tags |
| TaggedPtr.ClearIdempotent | tagged_ptr.h:59-76 | clearing tags twice is clearing them once |
| TaggedPtr.ClearAndTagsRebuild | tagged_ptr.h:59-99 | the cleared pointer ORed with its tags is the original pointer |
| TaggedPtr.NoTagsIffAligned | tagged_ptr.h:84-99 | for a power-of-two alignment, a pointer reads back no tags exactly when its address is a multiple of the alignment as an unsigned number |
| TaggedPtr.TagsAreRemainder | tagged_ptr.h:84-99 | for a power-of-two alignment, the tags read are the remainder of the address divided by the alignment |
| TaggedPtr.GetTagsMeaning | tagged_ptr.h:84-99 | the tags read are at most align - 1; for a power-of-two alignment they are the remainder of the address divided by it, and zero exactly when the address is a multiple of it |
| TaggedPtr.ModIsMask | tagged_ptr.h:93 | for a power-of-two alignment, the bits of an address below the alignment (`ptr & (align - 1)`) are, as a number, the address modulo the alignment |
| TaggedPtr.AlignedIsMask | tagged_ptr.h:70 | for a power-of-two alignment, an address is a multiple of it exactly when the bits `align - 1` selects are clear |
| TaggedPtr.MakeTaggedTags | tagged_ptr.h:107-110 | a pointer made from a multiple of align and a tag below align reads back that tag |
| TaggedPtr.MakeTaggedValue | tagged_ptr.h:107-110 | a pointer made from a multiple of align and a tag below align, with its tags cleared, is the multiple |
| TaggedPtr.PtrAddTag | tagged_ptr.h:127-132 | under the macro's checks (0 < tag < alignment), the result fits the pointer width; for an aligned pointer its tags are tag and clearing them restores the pointer |
| TaggedPtr.PtrClearTags | tagged_ptr.h:137-141 | the result fits the pointer width and reads back no tags; for a power-of-two alignment it is a multiple of the alignment; ORed with the tags it gives back the pointer |
| TaggedPtr.PtrGetTags | tagged_ptr.h:145-148 | the tags are at most alignment - 1; for a power-of-two alignment they are the address modulo the alignment, and zero exactly when the address is a multiple of it |
| TaggedPtr.PtrMakeTagged | tagged_ptr.h:153-159 | under the macro's checks (0 < tag < alignment, value <= UINT_MAX / alignment), the error pointer fits the width, reads back tag, and with its tags cleared is value * alignment |
| DLists.Prepend | dlist.h:49-58 | _dlist_prepend_: the chain s..e goes in after a; e links to a's old successor, and that successor links back to e |
| DLists.Append | dlist.h:65-74 | _dlist_append_: the chain s..e goes in before a; a's old predecessor links to s, and s links back to it |
| DLists.LinkAfter | dlist.h:191-200 | _dlist_insert_after returns x, now linked after cur and forward to cur's old successor |
| DLists.LinkBefore | dlist.h:215-224 | _dlist_insert_before returns x, now linked before cur and back to cur's old predecessor |
| DLists.FinishAfter | dlist.h:228-232 | _dlist_insert_after_finish: cur's successor links back to cur |
| DLists.FinishBefore | dlist.h:236-240 | _dlist_insert_before_finish: cur's predecessor links forward to cur |
| DLists.SpliceIn | dlist.h:49-58 | linking a chain of distinct entries, apart from a ring, in after one of the ring's entries makes one ring of them all, in the spliced order |
| DLists.SpliceOut | dlist.h:262-274 | linking the two neighbours of an entry to each other leaves a ring of the other entries, without that entry |
| DLists.Substitute | dlist.h:290-301 | putting a new entry, linked to both neighbours, in place of one in a ring leaves a ring with the new entry at that position |
| DLists.DList.constructor | dlist.h:325 | DLIST_DECLARE: a valid empty list with a fresh head entry whose next and prev both link to itself |
| DLists.DList.End | dlist.h:303-314 | dlist_end: the head entry, which is on the ring and is not an element |
| DLists.DList.Init | dlist.h:316-322 | dlist_init: the list is valid and empty whatever it held before |
| DLists.DList.IsEmpty | dlist.h:327-334 | dlist_is_empty: true exactly when the list has no elements |
| DLists.DList.FinishFront | dlist.h:121-127 | _dlist_add_front_finish: the given first entry links back to the head |
| DLists.DList.FinishBack | dlist.h:132-138 | _dlist_add_back_finish: the given last entry links forward to the head |
| DLists.DList.FinishFirst | dlist.h:143-147 | dlist_add_front_finish: the current first entry links back to the head |
| DLists.DList.FinishLast | dlist.h:152-156 | dlist_add_back_finish: the current last entry links forward to the head |
| DLists.DList.AddFront | dlist.h:160-166 | dlist_add_front: the elements become [x] + old; x is first, linked between the head and the old first; only those links change |
| DLists.DList.AddBack | dlist.h:170-176 | dlist_add_back: the elements become old + [x]; x is last, linked between the old last and the head; only those links change |
| DLists.DList.InsertAfter | dlist.h:244-250 | dlist_insert_after: x goes in immediately after cur, at its position in Elems, and the list stays valid |
| DLists.DList.InsertBefore | dlist.h:254-260 | dlist_insert_before: x goes in immediately before cur; before the head means at the back |
| DLists.DList.Remove | dlist.h:262-274 | dlist_remove: the element leaves Elems at its position and the ring stays valid; the result is x, whose own links are untouched |
| DLists.DList.Restore | dlist.h:276-288 | dlist_restore: an entry whose prev and next are adjacent on the ring goes back in between them |
| DLists.DList.RemoveThenRestore | dlist.h:276-277 | removing an element and then restoring it gives back the same elements and every link of the ring as before |
| DLists.DList.Replace | dlist.h:290-301 | dlist_replace: n takes o's place in Elems and the list stays valid; the result is o, whose own links are untouched |
| DLists.DList.MoveNonEmpty | dlist.h:336-350 | _dlist_move: this head, valid or not before, takes over src's non-empty elements and is valid; src's head keeps its stale links |
| DLists.DList.Move | dlist.h:352-365 | dlist_move: this list holds src's former elements (none if src was empty), and src is valid and empty |
| DLists.DList.AddListFrontNonEmpty | dlist.h:367-380 | _dlist_add_list_front: the elements become src ++ dst; src's head keeps its stale links |
| DLists.DList.AddListFront | dlist.h:382-393 | dlist_add_list_front: the elements become src ++ dst (unchanged for an empty src); src ends valid and empty |
| DLists.DList.AddListBackNonEmpty | dlist.h:395-408 | _dlist_add_list_back: the elements become dst ++ src; src's head keeps its stale links |
| DLists.DList.AddListBack | dlist.h:410-421 | dlist_add_list_back: the elements become dst ++ src (unchanged for an empty src); src ends valid and empty |
| DLists.DList.InsertListAfterNonEmpty | dlist.h:423-437 | _dlist_insert_list_after: src's elements go in, in order, right after cur |
| DLists.DList.InsertListAfter | dlist.h:439-451 | dlist_insert_list_after: src's elements go in, in order, right after cur; src ends valid and empty |
| DLists.DList.InsertListBeforeNonEmpty | dlist.h:453-467 | _dlist_insert_list_before: src's elements go in, in order, right before cur |
| DLists.DList.InsertListBefore | dlist.h:469-481 | dlist_insert_list_before: src's elements go in, in order, right before cur; src ends valid and empty |
| DLists.DList.Iterate | dlist.h:500-504 | dlist_iterate visits exactly the elements, in order, and leaves the iterator NULL |
| DLists.DList.IterateBackward | dlist.h:506-507 | dlist_iterate_backward visits exactly the elements in reverse order, and leaves the iterator NULL |

## Left out

- The command-line option parser: get_opt.inl, its implementation, is not part of this model. get_opt_info.h only declares its state record.
- The typed, ref and delete iteration macros and the C++ iterator classes in dlist.h:509-704 are left out. They rest on CONTAINER_OF address arithmetic and token pasting. `dlist_iterate_delete_backward` (dlist.h:574-575) and `dlist_iterate_delete_typed_backward` (dlist.h:585-586) take a parameter `p` but pass `n` to the underlying macro, so they only compile where a variable `n` is in scope. This is not modelled.
- The batch half-steps `_dlist_add_front` and `_dlist_add_back` (dlist.h:89-116) leave a link unset. They appear only inside the composite operations, as `Prepend`/`Append` followed by the finishing step.
- Positions in the ring are ghost parameters `k` of the methods. C identifies an entry by its pointer alone; the model requires `Ring()[k]` to be that entry.
- Several C functions return their `dlist` argument so that calls can be chained (`_dlist_add_front_finish`, `dlist_add_front`, `dlist_add_back` and the others marked `A_Ret_range(==,dlist)`). The model's methods have no result, because the caller already holds the list.
- Entry fields are nullable (`Entry?`), standing for links not yet set. A valid list never holds null.
- DLists.Prepend: also requires e != a, where a is the entry whose `next` field the C pointer `a` points into. C demands only s != *a and e != *a (dlist.h:45-47). With e == a the final write `e->next = f` would overwrite the link just set, and the stated result would not hold.
- DLists.Append: also requires s != a, where a is the entry whose `prev` field the C pointer `a` points into. C demands only s != *a and e != *a (dlist.h:61-63). With s == a the final write `s->prev = l` would overwrite the link just set.
- DLists.DList.AddFront: requires a valid list and x outside its ring. C has no annotation (dlist.h:158-166), and its half-step demands only that x is not the current first entry (dlist.h:87). Adding an entry already on the ring would corrupt it, and the model does not describe that outcome.
- DLists.DList.AddBack: requires a valid list and x outside its ring. C has no annotation (dlist.h:168-176), and its half-step demands only that x is not the current last entry (dlist.h:108), as for AddFront.
- DLists.DList.InsertAfter: requires cur to be on a valid list and x outside its ring. C demands only current != e (dlist.h:243, and dlist.h:189 for its half-step).
- DLists.DList.InsertBefore: requires cur to be on a valid list and x outside its ring. C demands only current != e (dlist.h:253, and dlist.h:213 for its half-step).
- DLists.DList.Remove: requires the entry to be an element of a valid list (not its head). C only demands that the entry is not linked to itself, which would also allow unlinking a head.
- DLists.DList.Replace: requires o to be an element (not the head) and n to be outside the ring. C only demands o != n.
- DLists.DList.Restore: modelled only for an entry whose prev and next are adjacent on a valid ring, the case the source comment describes.
- DLists.DList.IsEmpty: requires a valid list. C reads only the first link, and the model gives the answer for valid lists.
- DLists.DList.Move: requires this list's head not to be on src's ring. C demands dst != src.
- DLists.DList.AddListFront: requires the two rings to share no entry. C demands only dst != src; the model needs the stronger condition to show the result is a ring.
- DLists.DList.AddListBack: requires the two rings to share no entry, as for AddListFront.
- DLists.DList.InsertListAfter: requires cur to be on this valid list and the two rings to share no entry. C demands only that cur is not src's first or last element.
- DLists.DList.InsertListBefore: requires cur to be on this valid list and the two rings to share no entry, as for InsertListAfter.
- The `*NonEmpty` half-steps leave src's head stale, as C does. The model states only that src's head links are unchanged; it does not describe the resulting invalid state further.
- DLists.DList.Iterate: the iteration macros are `for` loops around the caller's body. The model runs the loop with an empty body and returns the entries it passed.
- The `BYTESWAP_UINT*` intrinsic branch of bswaps.h (MSVC `_byteswap_*`) is a foreign call. The portable shift-and-mask expressions are modelled instead.
- The compiler pragmas, `__attribute__((const))`/`constexpr` and the `ALIGNOF_*` macros of tagged_ptr.h are not modelled. The alignment is a parameter. Wherever a round trip or a multiple-of property is stated, it is a power of two, as every C alignment is.
- The compile-time type checks inside the PTR_* macros are not modelled; only their value conditions become preconditions.
- ccasts.h, countof.h, sal_defs.h, annotations.h, asserts.h, static_asserts.h, dprint.h and dprint_bt.h are not part of this model. They are compile-time casts and sizes, static-analysis annotations, abort facilities and debug logging.
