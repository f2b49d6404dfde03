# Heap service of the emulated PSP kernel (SysMemForKernel)

This project models the heap system calls of PPSSPP's high-level kernel
emulation, `Core/HLE/sceKernelHeap.cpp`, and proves their properties:

- `sceKernelCreateHeap` creates a heap;
- `sceKernelAllocHeapMemory` carves a block out of a heap;
- `sceKernelDeleteHeap` destroys a heap.

Each call is a pure step over the kernel state it touches:

- the user-memory arena (`userMemory`), which reserves and releases whole
  heap regions;
- the kernel object pool (`kernelObjects`), which maps handles (uids) to
  tagged objects and looks them up by type;
- each heap's block allocator (`BlockAllocator`), kept abstract as the range
  it was initialised with plus a log of requests and their opaque results.

A step returns the new state and the 32-bit word the guest receives. The
collaborators' own choices are parameters of the step, constrained only by
their contracts:

- the arena's answer: either its failure word 0xFFFFFFFF, or an address
  together with the size it leaves in the size variable. Line 42 passes that
  variable, and lines 54 and 56 read it afterwards. The arena's declaration is
  not part of this model, so it may take the variable by reference and
  enlarge it. The granted size is at least the requested one, and the new
  region overlaps no live one;
- the handle the pool issues, which must not be live;
- the word the block allocator returns.

All 32-bit arithmetic is written out explicitly (`Word32`):

- `(size + 3) & ~3` uses a bit-by-bit `And`;
- `address + 128`, `size - 128` and `8 + size` wrap modulo 2^32.

Files:

- `word32.dfy`: words, conversions, bitwise AND.
- `arena.dfy`: the arena contract.
- `suballocator.dfy`: the abstract block allocator.
- `heap.dfy`: the `Heap` record, its stored name and its `DoState` layout.
- `registry.dfy`: the typed handle pool.
- `heapservice.dfy`: the three calls and the kernel invariant.
- `trace.dfy`: sequences of calls.
- `wrappers.dfy`: `Option` and `Result`.

Behaviour of the code that the model follows:

- A failed block allocation is not turned into an error code of its own. The
  allocator's word is returned as is (lines 67-68).
- The heap stores only the size variable as it stands after the arena call
  (line 54). It does not keep the size the guest requested.
- `heap->name = *Name` assigns a single character (line 53). So the heap
  stores only the first character of the name, which is NUL for an empty
  name.
- The block allocator is initialised with length `size - 128` in u32
  arithmetic (line 56). A heap whose size is below 128 bytes therefore gets a
  length of at least 2^32 - 128 (`HeapService.SmallHeapLengthWraps`).
- Delete releases the arena region without checking the heap for live blocks
  (lines 79-80).
- Delete destroys the uid recorded in the heap (line 80), not the handle it
  was given. The two agree on every reachable kernel (`HeapService.Inv`).
- The placement flag `frombottom` (value `false`, lines 12 and 42) is passed
  to the arena. Its meaning is declared with the arena, which is not part
  of this model, and placement is not modelled.

## Model

| member | source | states |
|---|---|---|
| Word32.ToU32 | Core/HLE/sceKernelHeap.cpp:66 | converting an int to u32 keeps values in range, adds 2^32 to negative ones down to -2^32, and subtracts 2^32 from values up to 2^33 (the two's-complement bit pattern) |
| Word32.Not32 | Core/HLE/sceKernelHeap.cpp:39 | `~x` on a 32-bit word is the word whose sum with x is 0xFFFFFFFF, i.e. every bit flipped |
| Word32.And | Core/HLE/sceKernelHeap.cpp:39 | bitwise AND, one bit at a time from the least significant end; the result is no larger than either operand |
| Word32.AndNot3 | Core/HLE/sceKernelHeap.cpp:39 | `x & ~3` on a 32-bit word clears exactly its two low bits, i.e. rounds it down to a multiple of 4 |
| HeapService.AllocSize | Core/HLE/sceKernelHeap.cpp:39 | the reserved size is a multiple of 4; for 0 <= size it is the least multiple of 4 not below size; sizes -3..-1 give 0; smaller negative sizes wrap to the rounded value of 2^32 + size; sizes above 0x7FFFFFFC are excluded (signed overflow) |
| HeapService.CreateHeap | Core/HLE/sceKernelHeap.cpp:38-59 | if the arena fails: returns NO_MEMORY and the state is unchanged; otherwise the arena's granted size (at least the rounded size) is reserved at the arena's address, exactly one new heap is registered under the fresh handle and that handle is returned; the heap keeps partitionId, flags, the granted size, the address, the first character of the name, and an allocator initialised at address+128 with length size-128 (both mod 2^32) |
| HeapService.AllocHeapMemory | Core/HLE/sceKernelHeap.cpp:61-73 | unknown handle: returns UNKNOWN_UID and the state is unchanged; live heap: exactly one allocator request of 8+size bytes (mod 2^32) with the flag argument `true`, whose answer is returned verbatim; arena, other objects and the heap's other fields unchanged |
| HeapService.DeleteHeap | Core/HLE/sceKernelHeap.cpp:75-86 | unknown handle: returns UNKNOWN_UID and the state is unchanged; live heap: exactly its base address is released, the uid recorded in the heap is retired when it holds a heap, nothing else changes, returns 0 |
| HeapService.CreatePreservesInv | Core/HLE/sceKernelHeap.cpp:42-57 | create keeps the kernel invariant: every heap is filed under its own uid, has its size reserved at its address, manages the range after the 128-byte prefix, and no two heaps share an address |
| HeapService.AllocPreservesInv | Core/HLE/sceKernelHeap.cpp:63-68 | allocating a block keeps the kernel invariant |
| HeapService.DeletePreservesInv | Core/HLE/sceKernelHeap.cpp:77-81 | deleting a heap keeps the kernel invariant (the other heaps' regions stay reserved) |
| HeapService.DeleteRetiresHandle | Core/HLE/sceKernelHeap.cpp:77-85 | on a well-formed kernel, delete removes exactly the looked-up handle; afterwards it no longer resolves and both alloc and delete on it return UNKNOWN_UID without changing state |
| HeapService.CreateThenDelete | Core/HLE/sceKernelHeap.cpp:42-80 | deleting a heap right after a successful create restores arena and pool exactly and returns 0 |
| HeapService.SmallHeapLengthWraps | Core/HLE/sceKernelHeap.cpp:56 | a heap whose reserved size is below 128 is still created, and its allocator length wraps to that size + 2^32 - 128 (at least 2^32 - 128) |
| HeapRecord.StoredName | Core/HLE/sceKernelHeap.cpp:53 | the stored name has exactly one character: the first character of the guest's name, or NUL for an empty name |
| HeapRecord.StoredNameFirstChar | Core/HLE/sceKernelHeap.cpp:53 | two guest names give the same stored name exactly when their first characters agree (an empty name counting as NUL), and storing a stored name again changes nothing |
| HeapRecord.DoState | Core/HLE/sceKernelHeap.cpp:27-35 | a heap's snapshot is seven fields in the fixed order uid, partitionId, size, flags, address, name, alloc |
| HeapRecord.Restore | Core/HLE/sceKernelHeap.cpp:27-35 | the read direction of `DoState`: a stream is accepted exactly when it starts with seven fields of the kinds uid, partitionId, size, flags, address, name, alloc in that order; they fill the heap's fields in that order, and the stream after them is returned |
| HeapRecord.RestoreDoState | Core/HLE/sceKernelHeap.cpp:27-35 | reading back a snapshot reproduces the heap field for field and leaves the stream just after it |
| HeapRecord.RestoreIsDoState | Core/HLE/sceKernelHeap.cpp:27-35 | whatever the reader accepts is exactly one heap's snapshot followed by the rest of the stream |
| HeapRecord.DoStateInjective | Core/HLE/sceKernelHeap.cpp:27-35 | two heaps with the same snapshot are equal |
| Registry.GetHeap | Core/HLE/sceKernelHeap.cpp:23-25 | typed lookup succeeds exactly when the handle is live and holds a heap, yielding that heap; otherwise it fails with the heap's missing-object code UNKNOWN_UID |
| Registry.GetAfterCreate | Core/HLE/sceKernelHeap.cpp:48-49 | a heap registered under a fresh handle is found under that handle |
| Registry.Create | Core/HLE/sceKernelHeap.cpp:49 | registering under a non-live handle adds exactly that handle with the object and keeps every other entry |
| Registry.Destroy | Core/HLE/sceKernelHeap.cpp:80 | the typed destroy removes exactly that handle when it holds a heap, leaves the pool unchanged otherwise, and keeps every other entry |
| Registry.GetAfterDestroy | Core/HLE/sceKernelHeap.cpp:80 | a destroyed handle does not resolve to a heap; every other handle resolves as before |
| Registry.DestroyAfterCreate | Core/HLE/sceKernelHeap.cpp:49 | destroying a heap's handle just created restores the pool |
| Arena.Reserve | Core/HLE/sceKernelHeap.cpp:42 | a granted reservation adds exactly one region at the granted address with the granted length, keeps all others, and keeps regions disjoint |
| Arena.Release | Core/HLE/sceKernelHeap.cpp:79 | release removes exactly the region at the given address and keeps all others |
| Arena.ReleaseAfterReserve | Core/HLE/sceKernelHeap.cpp:42-43 | releasing a region just reserved restores the arena exactly |
| SubAllocator.Init | Core/HLE/sceKernelHeap.cpp:56 | a fresh allocator manages the given start and length and has served no requests |
| SubAllocator.Alloc | Core/HLE/sceKernelHeap.cpp:67 | a request returns the allocator's answer, appends exactly that request to the log and keeps the range |
| SubAllocator.AllocAllLog | Core/HLE/sceKernelHeap.cpp:67 | after any series of requests the log is the old log followed by exactly those requests in order, and the range never moves |
| Trace.RunPreservesInv | Core/HLE/sceKernelHeap.cpp:38-86 | the kernel invariant holds after any sequence of create, alloc and delete calls whose collaborator answers keep their contracts |
| Trace.RunKeepsHandleRetired | Core/HLE/sceKernelHeap.cpp:61-85 | a handle that is not live stays unresolvable (lookups give UNKNOWN_UID) through any call sequence that does not issue it again |
| Trace.AllocRun | Core/HLE/sceKernelHeap.cpp:61-68 | a series of allocations from one live heap returns the allocator's answers in order, leaves the arena alone, and leaves the heap's allocator as replaying the requests size+8 (mod 2^32) with flag `true` would |
| Trace.Session | Core/HLE/sceKernelHeap.cpp:38-86 | on an empty kernel, create / alloc / delete / alloc on handle 1 returns the handle, the allocator's answer, 0 and UNKNOWN_UID, and ends in the initial state |

## Left out

- `BlockAllocator` internals (`Core/Util/BlockAllocator.h` is not part of this model). The free list, the scan order, alignment, and the addresses and failure words it returns are not modelled. So the claims that blocks do not overlap and lie inside the heap's range are not stated.
- `userMemory` internals: placement, the meaning of the `frombottom` flag, how much the arena enlarges a request, and the diagnostic tag are not modelled. Only the reserve/release contract is.
- HeapService.CreateHeap: the arena may enlarge the size it receives by reference. The granted size is therefore a parameter that is only known to be at least the rounded size. The heap's size and its allocator length are stated in terms of it. That the arena rounds to its own grain is not modelled.
- HeapService.SmallHeapLengthWraps: holds whenever the granted size is below 128. If the arena's grain is at least 128, that case does not arise. The grain is not part of this model.
- HeapService.CreatePreservesInv: the invariant does not claim that a heap's size is a multiple of 4. The granted size comes from the arena, and the model makes no assumption about its grain. The multiple-of-4 rounding of the request is stated by `HeapService.AllocSize`.
- `kernelObjects` internals: how handles are issued, whether they are reused, and pool exhaustion are not modelled. A new handle is only assumed not to be live.
- Object kinds: the type-id check (`GetIDType`/`GetStaticIDType`) is modelled by the entry's constructor (`HeapObject` versus `OtherObject`). The numeric id values are not modelled.
- Error-code values: `SCE_KERNEL_ERROR_UNKNOWN_UID` (0x800200CB) and `SCE_KERNEL_ERROR_NO_MEMORY` (0x80020190) come from `Core/HLE/sceKernel.h`, which is not part of this model.
- Logging (`ERROR_LOG`, `hleLogSuccessInfoX`) is I/O. `hleLogSuccessInfoX` is taken to return its value argument.
- The HLE function table, argument-marshalling wrappers and `Register_SysMemForKernel` (lines 88-97) are plumbing.
- `PointerWrap` byte encoding: a snapshot is modelled as an ordered list of field values. The allocator's own state is one opaque field.
- HeapService.AllocSize: sizes above 0x7FFFFFFC are excluded by precondition, because `size + 3` overflows a C++ `int` there (undefined behaviour).
- C strings: the guest's name is a byte string. It is modelled as the characters before its terminating NUL, one Dafny `char` per byte. `HeapRecord.StoredName` keeps the first of them.
- The block allocator's second argument is modelled as a neutral `flag`. Its name and meaning are in `Core/Util/BlockAllocator.h`; the service always passes `true`.
