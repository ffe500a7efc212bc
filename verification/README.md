# lab0-c queue, modelled in Dafny

lab0-c keeps a queue of strings as a circular doubly-linked list. The list is
threaded through a sentinel `list_head` that lives inside a queue context
(`queue_contex_t`). A queue handle is a pointer to that sentinel. Every other
link of the ring is embedded in an element (`element_t`) that owns a
heap-allocated copy of its string. This project models the operations of
`queue.c` that are implemented:
- creating and freeing a queue;
- inserting at either end;
- removing from either end, optionally copying the removed string into a
  caller's buffer;
- counting;
- deleting the middle element.

Two modules:

- `CStrings` (`cstring.dfy`) covers C strings. A `CString` is the characters
  before the terminating NUL. `StrNCpy` is what `strncpy` leaves in its
  destination. `CStr` reads a buffer back as a C string. The lemmas prove that
  `strncpy(sp, v, bufsize - 1)` followed by `sp[bufsize - 1] = '\0'` leaves
  `v` truncated to at most `bufsize - 1` characters.
- `LinkedQueue` (`queue.dfy`) covers the ring itself.
  - `Node` is a link with mutable `next`/`prev` fields and its string.
  - `Queue` is the context. It holds the sentinel `head`, the constant
    `size`/`id` fields, and, as ghost state, the element nodes in ring order
    (`nodes`) and the set of objects the queue owns (`Repr`).
  - `Queue.Valid()` says the `next` and `prev` links walk exactly the ring
    head, nodes[0], …, nodes[n-1], head.
  - Every operation is a method that performs the same pointer writes as the
    C function, in the same branches. It is proved to keep `Valid()` and to
    change `Contents()`, the strings from head to tail, as the operation
    promises.

Pointers the C code checks for NULL are `Queue?` / `array?<char>` parameters.
A failed `malloc` is a boolean parameter `allocOk` chosen by the caller.

## Model

| member | source | states |
|---|---|---|
| CStrings.StrNCpy | queue.c:118 | `strncpy(dst, src, n)` fills exactly `n` characters of `dst` |
| CStrings.StrNCpyAt | queue.c:118 | character `i` of the copy is `src[i]` while `src` lasts and NUL after it |
| CStrings.CStr | queue.c:118-119 | the C string a buffer holds is a prefix of the buffer, and it stops at a NUL or at the end of the buffer |
| CStrings.TruncatedCopy | queue.c:118-119 | a buffer filled by `strncpy(sp, v, bufsize - 1)` and then NUL-terminated at `bufsize - 1` reads back as `v` when it fits, else as its first `bufsize - 1` characters |
| LinkedQueue.Node.constructor | queue.c:54-58 | a freshly allocated element holds its own copy of the string and has no links yet |
| LinkedQueue.Queue.Valid | queue.c:21-23 | the well-formedness every operation keeps: the queue owns its sentinel and elements, the sentinel is no element, and the `next` and `prev` links walk exactly head, element 0, …, the last element, head |
| LinkedQueue.Queue.constructor | queue.c:21-25 | a fresh context that owns just itself and its sentinel; the sentinel links to itself both ways; no elements, `size` 0 and `id` 0 |
| LinkedQueue.Queue.Circular | queue.c:21-23 | in a well-formed ring every node's `next` has it as `prev`, and every node's `prev` has it as `next` |
| LinkedQueue.Queue.EmptyIffSelfLoop | queue.c:60 | `head->next == head`, and likewise `head->prev == head`, holds exactly when the queue is empty, which is the test both inserts branch on |
| LinkedQueue.Queue.Unique | queue.c:38-45 | the links alone make every element occur once in the ring, so the walks that free and count visit each element once |
| LinkedQueue.ValuesAppend | queue.c:52-99 | the strings of two runs of elements placed one after the other are the strings of the first run, then those of the second |
| LinkedQueue.ValuesLast | queue.c:126-146 | the strings of a non-empty run are those of all but its last element, then the last element's string |
| LinkedQueue.ValuesRemoveAt | queue.c:186-189 | cutting element `k` out of a run cuts exactly string `k` out of its strings |
| LinkedQueue.New | queue.c:14-28 | NULL exactly when allocation fails; otherwise a fresh, well-formed, empty queue that owns just itself and its sentinel, whose sentinel links to itself, with `size` and `id` 0 |
| LinkedQueue.Free | queue.c:31-49 | a NULL handle releases nothing; otherwise the walk from `head->next` back to the sentinel releases every element exactly once, from head to tail |
| LinkedQueue.InsertHead | queue.c:52-74 | false and no change when allocation fails; otherwise the ring stays well formed, a fresh element holding `s` is first and is the one object the queue gains, the old elements follow unchanged, and the strings become `[s]` followed by the old ones |
| LinkedQueue.InsertTail | queue.c:77-99 | false and no change when allocation fails; otherwise the ring stays well formed, the old elements are kept in order, a fresh element holding `s` comes last and is the one object the queue gains, and the strings become the old ones followed by `s` |
| LinkedQueue.CopyOut | queue.c:117-120 | `sp[0..bufsize)` receives `strncpy` of the value plus a NUL at `bufsize - 1`; it reads back as the value truncated to `bufsize - 1` characters; the rest of `sp` is untouched |
| LinkedQueue.RemoveHead | queue.c:102-123 | NULL for a NULL handle, whatever `sp` and `bufsize` are; otherwise the first element is unlinked and returned, the ring stays well formed without it, the old strings are its string followed by the remaining ones, and a non-NULL `sp` receives its string truncated to `bufsize - 1` characters |
| LinkedQueue.RemoveTail | queue.c:126-146 | NULL for a NULL handle, whatever `sp` and `bufsize` are; otherwise the last element is unlinked and returned, the ring stays well formed without it, the old strings are the remaining ones followed by its string, and a non-NULL `sp` receives its string truncated to `bufsize - 1` characters |
| LinkedQueue.Size | queue.c:149-162 | 0 for a NULL handle; otherwise the number of elements, found by walking the ring once |
| LinkedQueue.DeleteMid | queue.c:165-196 | false, with nothing changed, for a NULL handle or an empty queue; otherwise true, and the element at 0-based index ⌊n/2⌋ of the n elements is gone, with the others kept in order, and it is the one object the queue gives up |
| LinkedQueue.UnlinkAfter | queue.c:181-192 | for three or more elements, given the node before index ⌊n/2⌋ (which is where the cursor of `q_delete_mid` stops), that element is cut out of the ring in both directions and released, and the ring stays well formed |

## Left out

- `q_delete_dup`, `q_swap`, `q_reverse`, `q_reverseK`, `q_sort`, `q_ascend`, `q_descend` and `q_merge` (queue.c:199-245) are stubs in the source. They have no behaviour to model, so they are not modelled.
- `malloc` is not modelled. Its failure is the caller-chosen `allocOk` parameter of `New`, `InsertHead` and `InsertTail`.
- `free` is not modelled. Releasing is recorded as removal from `Repr`, or, for `Free`, as the returned list of released elements. The handle and the removed elements stay readable in the model, whereas in C they dangle.
- `strdup` is assumed to succeed. The source does not check its NULL result, so an element with a NULL value is not modelled.
- The layouts of `element_t` and `queue_contex_t` are not modelled, and neither is `container_of`: queue.h is not part of this model. An element and its link are one `Node`. The context and its `chain` sentinel are one `Queue` with its `head`.
- `size` and `id` are constants. Only `q_merge`, which is a stub, would change them.
- Behaviour the C code leaves undefined becomes a precondition:
  - inserting into a NULL queue;
  - removing from an empty queue;
  - when a non-NULL handle has an element removed, a non-NULL `sp` with `bufsize` 0 or larger than the buffer. A NULL handle returns before `sp` and `bufsize` are read, so the model accepts any `sp` and `bufsize` with it.
- Strings are `CString`s, which contain no embedded NUL, as C strings cannot. The sentinel's string is an unused empty string.
- Queue.Valid: only says that every owned object is the queue or a node; it does not itself say that every owned node is in the ring, because that conjunct made the link proofs too costly. Instead every operation fixes the owned set exactly: New starts it as the queue and its sentinel, an insert adds just the new element, and a remove or delete takes away just the removed element. So from New on, it holds nothing outside the ring.
- Size: the `int` counter of `q_size` is unbounded here. Overflow beyond `INT_MAX` elements is not modelled.
- Concurrency is not modelled. The source has none.
