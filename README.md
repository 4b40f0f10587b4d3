# Ring deque over a caller-supplied byte buffer

This project models the fixed-capacity, type-erased ring deque of `src/deque.c`
and proves its properties in Dafny. The C deque is a `Deque_t` record
(`src/deque_t.h:43-50`). It holds two cursors, `front` and `rear`, a pointer to the
caller's buffer, the buffer size in bytes and the element size in bytes. The
nine operations are Init, IsEmpty, IsFull, PushFront, PushBack, PopFront, PopBack,
PeekFront and PeekBack. They move one byte at a time. Emptiness is the sentinel
`front == SIZE_MAX`. Fullness is `rear == front`, and the pops test the same
condition to notice that they have just removed the last byte.

The model has four modules:

- `Ring` (`ring.dfy`): the cursor arithmetic.
  - `Next` is the increment with its wrap test.
  - `Prev` is the literal `size_t` decrement, where 0 becomes `SIZE_MAX`, followed by the C code's `SIZE_MAX` test.
  - `Occupancy` is the number of occupied bytes denoted by a pair of cursors.
  - `View` is the occupied bytes of a buffer, oldest first.
  - One step lemma per byte move states how that move changes the `View`.
  - The alignment lemmas show that a deque holding a whole number of elements is full or empty only on element boundaries.
- `DequeSpec` (`deque_spec.dfy`): the meaning of each operation on the sequence of occupied bytes.
  - `PushBack`, `PushFront`, `PopFront` and `PopBack` are the single operations.
  - `PushAll` and `PopAll` are sequences of operations.
  - The laws the header and the test suite promise are lemmas: queue and stack disciplines at every combination of ends, exact capacity with no reserved slot, and byte-identical round trips.
- `RingDeque` (`deque.dfy`): class `Deque`.
  - Its `front` and `rear` fields are mutable. The buffer is an `array<bv8>`, and the buffer and both sizes are fixed at construction.
  - Each C function is a method or function whose body follows the C code statement by statement, including the per-byte fullness and emptiness checks inside the copy loops.
  - Each method is proved against the corresponding `DequeSpec` function applied to the ghost `Contents()`, which is the `View` of the buffer.
- `DequeScenarios` (`scenarios.dfy`): scenarios from `test/deque_suite.h`, as methods that build a deque over a fresh buffer, drive it and promise the outcome the suite asserts.
  - Overflow after filling.
  - Underflow on a fresh deque.
  - An 8-byte round trip at every pair of ends.
  - A peek returning what the next pop returns.

The object invariant `Valid()` needs three things:

- the cursors are in range;
- the buffer size is a whole number of elements;
- the occupied byte count is a whole number of elements.

Under that invariant the per-byte check can fire only before the first byte of an operation. Every push and pop is therefore all-or-nothing. On failure it leaves the cursors, the buffer and the caller's output untouched.

## Model

| member | source | states |
|---|---|---|
| Ring.Next | src/deque.c:177-182 | The wrapped increment of a cursor stays a buffer position (below `bufSize`). |
| Ring.Prev | src/deque.c:99-104 | The `size_t` decrement followed by the `SIZE_MAX` test stays a buffer position, and it is undone by `Next`: one step backwards round the buffer. |
| Ring.Occupancy | src/deque.c:51-69 | The occupied byte count is: at most the buffer size; zero exactly when `front` is the sentinel; the whole buffer exactly when `rear == front`; and otherwise `rear` lies that many positions after `front`. |
| Ring.View | src/deque_t.h:43-50 | The occupied bytes denoted by the cursors number exactly the occupancy. |
| Ring.PushBackStep | src/deque.c:135-147 | On a deque that is not full, taking over `rear` as the front of an empty deque, writing a byte at `rear` and advancing `rear` keeps the cursors in range and appends that byte to the occupied bytes. |
| Ring.PushFrontStep | src/deque.c:94-107 | On a deque that is not full, taking over `rear` as the front of an empty deque, stepping `front` back and writing a byte there keeps the cursors in range and prepends that byte. |
| Ring.PopFrontStep | src/deque.c:175-187 | On a non-empty deque the byte at `front` is the oldest. Advancing `front`, and resetting it to the sentinel when it meets `rear`, drops exactly that byte. |
| Ring.PopBackStep | src/deque.c:218-231 | On a non-empty deque the byte just before `rear` is the newest. Stepping `rear` back, and resetting `front` to the sentinel when the cursors meet, drops exactly that byte. |
| Ring.AlignedRoom | src/deque.c:86-108 | When the occupied count and the capacity are both whole numbers of elements and the deque is not full, a whole element fits, so the fullness check cannot fire after the first byte. |
| Ring.AlignedShift | src/deque.c:127-148 | Adding or removing one element keeps the occupied count a whole number of elements. |
| RingDeque.Deque.Init | src/deque.c:31-38 | After Init the deque is valid, `front` is the sentinel, `rear` is 0, the contents are empty, IsEmpty holds, IsFull does not, and no buffer byte is written. |
| RingDeque.Deque.IsEmpty | src/deque.c:51-54 | The sentinel in `front` holds exactly when the deque holds no bytes. |
| RingDeque.Deque.IsFull | src/deque.c:66-69 | `rear == front` holds exactly when the occupied span covers the whole buffer, and never while the deque is empty. |
| RingDeque.Deque.PushFront | src/deque.c:79-111 | The new status and contents are those of `DequeSpec.PushFront`: the element's bytes, first byte frontmost, go before the old contents if they fit. The result is Error exactly when the deque was full, and then cursors and buffer are unchanged. Validity is preserved. |
| RingDeque.Deque.PushBack | src/deque.c:121-151 | The new status and contents are those of `DequeSpec.PushBack`: the element is appended in natural order if it fits. The result is Error exactly when the deque was full, and then nothing changes. Validity is preserved. |
| RingDeque.Deque.PopFront | src/deque.c:161-191 | Status, output and remaining contents are those of `DequeSpec.PopFront`: the oldest element is returned in order and removed. The result is Error exactly when the deque was empty, and then `out` and `front` are unchanged. `rear` never moves. Validity is preserved. |
| RingDeque.Deque.PopBack | src/deque.c:203-235 | Status, output and remaining contents are those of `DequeSpec.PopBack`: the newest element is returned in its natural byte order and removed. The result is Error exactly when the deque was empty, and then `out` and both cursors are unchanged. Validity is preserved. |
| RingDeque.Deque.PeekFront | src/deque.c:245-256 | Both cursors and the contents are as before. `out` receives what PopFront would return. The result is Error exactly when the deque is empty, and then `out` is unchanged. |
| RingDeque.Deque.PeekBack | src/deque.c:266-276 | Both cursors and the contents are as before. `out` receives what PopBack would return. The result is Error exactly when the deque is empty, and then `out` is unchanged. |
| DequeSpec.PushAllFits | src/deque.h:64-84 | Pushes of whole elements at any mix of ends all succeed while their bytes fit, and add exactly those bytes. |
| DequeSpec.PushAllBack | src/deque.h:77 | Repeated back pushes that fit append the elements in the order pushed (queue and stack push). |
| DequeSpec.PushAllFront | src/deque.h:64-72 | Repeated front pushes that fit put the elements before the old contents, the last one pushed frontmost. |
| DequeSpec.PopAllFront | src/deque.h:89 | Repeated front pops return whole elements oldest first and leave the rest (queue pop). |
| DequeSpec.PopAllBack | src/deque.h:101 | Repeated back pops return whole elements newest first and leave the rest (stack pop). |
| DequeSpec.QueueBackToFront | test/deque_suite.h:719-755 | Back pushes of k elements then k front pops succeed, return the elements in the order pushed and leave the deque empty. |
| DequeSpec.StackAtBack | test/deque_suite.h:837-877 | Back pushes then back pops return the elements in reverse order and leave the deque empty. |
| DequeSpec.StackAtFront | test/deque_suite.h:757-835 | Front pushes then front pops return the elements in reverse order and leave the deque empty. |
| DequeSpec.QueueFrontToBack | test/deque_suite.h:918-998 | Front pushes then back pops return the elements in the order pushed and leave the deque empty. |
| DequeSpec.CapacityExact | test/deque_suite.h:83-119 | `cap / n` pushes at any mix of ends all succeed and fill every byte. One more push at either end fails and changes nothing, so no slot is reserved. |
| DequeSpec.NotFullBelowCapacity | test/deque_suite.h:15-81 | Fewer than `cap / n` pushes succeed and leave room for at least one more whole element, so the deque does not report full. |
| DequeSpec.RoundTrip | test/deque_suite.h:239-617 | One element of any size pushed at either end of an empty deque and popped at either end comes back byte for byte, and the deque is empty again. |
| DequeScenarios.PushAt | src/deque.h:72-84 | A push at a chosen end behaves as `DequeSpec.Push` and keeps the deque valid. |
| DequeScenarios.PopAt | src/deque.h:96-108 | A pop at a chosen end behaves as `DequeSpec.Pop`, keeps the deque valid and leaves `out` untouched on failure. |
| DequeScenarios.OverflowAfterTwoPushes | test/deque_suite.h:155-237 | After two one-byte pushes at any ends into a two-byte buffer the deque reports full, and a third push at either end returns Error. |
| DequeScenarios.UnderflowOnFreshDeque | test/deque_suite.h:121-153 | A pop at either end of a freshly initialised deque returns Error and leaves the output byte as it was. |
| DequeScenarios.RoundTripOfEightBytes | test/deque_suite.h:280-298 | An 8-byte element pushed at either end of a four-element deque and popped at either end comes back unchanged, and the deque is empty. |
| DequeScenarios.PeekThenPop | test/deque_suite.h:619-717 | After two pushes at one end, a peek at either end yields the same element as the following pop at that end, namely the one nearest that end. |

## Left out

- Caller preconditions: Init requires `0 < dataSize`, `0 < bufSize <= SIZE_MAX` and `bufSize` a whole multiple of `dataSize`. `Deque_Init` accepts any sizes, but with `dataSize == 0` every push and pop returns success and moves nothing. With a `bufSize` that is not a multiple, a push or pop can stop half-way through an element. Both are caller misuse and are not modelled.
- Pointer plumbing: `void *` casts, caller allocation and buffer lifetime are not modelled. Elements are byte sequences on input and arrays of `dataSize` bytes on output.
- Aliasing: the output array of a pop or peek is required to be distinct from the deque's buffer (`out != buf`). Pushed data is a value (`seq<bv8>`), so it cannot alias the buffer either. What the C code does when `pDataIn` or `pDataOut` overlaps `pBuf` is not modelled.
- `size_t` arithmetic: it is modelled only where it matters. The cursor decrement wraps 0 to `SIZE_MAX` before the C code's test, as written. No other step can overflow, because every cursor other than the sentinel is below `bufSize <= SIZE_MAX`.
- IsFull's doc comment: the comment at `src/deque.h:55` (repeated in `src/deque.c:59-60`) says the deque is full when the top is one less than the buffer size. The code tests `rear == front` and the model follows the code.
- Test harness: the macros, the printing helpers and the commented-out tests at `test/deque_suite.h:1043-1123` are not modelled. Those tests call a `Deque_Push`/`Deque_Pop` API that does not exist. The live tests appear only as the laws in `DequeSpec` and the scenarios in `DequeScenarios`, over small buffers rather than the suite's 1000-element ones.
- DequeSpec.PopAll: it records the popped elements only for the pops that succeed. A failed pop's untouched output buffer is described by the methods' contracts instead.
- Error codes: `Deque_Error_e` has one failure code, shared by overflow and underflow.
- Concurrency: the C code has none and takes no locks.
