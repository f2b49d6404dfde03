/** The three heap system calls, `sceKernelCreateHeap`, `sceKernelAllocHeapMemory`
    and `sceKernelDeleteHeap`, as pure steps over the kernel state they touch:
    the user-memory arena and the object pool, whose heaps own their block
    allocators. Each call returns the new state and the 32-bit word the guest
    receives. The collaborators' own choices (the arena's address, the pool's
    new handle, the block allocator's result) are parameters, constrained only
    by the collaborators' contracts. */
module HeapService {
  import opened Word32
  import opened Wrappers
  import opened HeapRecord
  import opened Registry
  import A = Arena
  import SA = SubAllocator

  /** Bytes the block allocator adds after every block. */
  const HEAP_BLOCK_HEADER_SIZE: u32 := 8

  /** Bytes at the start of each heap kept back from its block allocator. */
  const HEAP_PREFIX: u32 := 128

  /** What create returns when the arena has no room. */
  const SCE_KERNEL_ERROR_NO_MEMORY: u32 := 0x8002_0190

  datatype Kernel = Kernel(arena: A.Arena, objects: Pool)

  /** The state after a call and the word the call returns to the guest. */
  datatype Step = Step(kernel: Kernel, ret: u32)

  /** The reserved size of a heap, `(size + 3) & ~3`: the requested size
      rounded up to a multiple of 4, reinterpreted as an unsigned word. Sizes
      above 0x7FFFFFFC are excluded because `size + 3` overflows a C++ `int`. */
  function AllocSize(size: i32): (r: u32)
    requires size <= 0x7FFF_FFFC
    ensures r % 4 == 0
    ensures 0 <= size ==> size <= r < size + 4
    ensures -3 <= size < 0 ==> r == 0
    ensures size < -3 ==> TWO_32 + size <= r < TWO_32 + size + 4
  {
    var w := ToU32(size + 3);
    AndNot3(w);
    RoundDown4(size + 3, w);
    And(w, Not32(3))
  }

  /** Rounding the word of `x` down to a multiple of 4, case by case on how
      `x` wraps. */
  lemma RoundDown4(x: int, w: u32)
    requires -0x8000_0000 <= x < 0x8000_0000
    requires w == ToU32(x)
    ensures (w - w % 4) % 4 == 0
    ensures 3 <= x ==> x - 3 <= w - w % 4 <= x
    ensures 0 <= x < 4 ==> w - w % 4 == 0
    ensures x < 0 ==> TWO_32 + x - 3 <= w - w % 4 <= TWO_32 + x
  {
    var q := w / 4;
    assert w == 4 * q + w % 4;
    assert w - w % 4 == 4 * q;
  }

  /** The heap a successful create registers. */
  function NewHeap(uid: i32, partitionId: i32, allocSize: u32, flags: i32, name: string, address: u32): Heap
  {
    Heap(uid, partitionId, allocSize, flags, address, StoredName(name),
         SA.Init(ToU32(address + HEAP_PREFIX), ToU32(allocSize - HEAP_PREFIX)))
  }

  /** `sceKernelCreateHeap(partitionId, size, flags, name)`. The arena answers
      `reserveAnswer` to the request for the rounded size and leaves `granted`
      in the size variable it receives by reference; the pool hands out `uid`
      if a heap is registered. */
  function CreateHeap(k: Kernel, partitionId: i32, size: i32, flags: i32, name: string,
                      reserveAnswer: u32, granted: u32, uid: i32): (s: Step)
    requires size <= 0x7FFF_FFFC
    requires A.ReserveAnswer(k.arena, AllocSize(size), reserveAnswer, granted)
    requires reserveAnswer != A.FAILED ==> uid !in k.objects
    // Failure: the error code, and nothing reserved or registered.
    ensures reserveAnswer == A.FAILED ==> s == Step(k, SCE_KERNEL_ERROR_NO_MEMORY)
    // Success: at least the rounded size is reserved at the arena's address ...
    ensures reserveAnswer != A.FAILED ==>
      && s.kernel.arena.regions.Keys == k.arena.regions.Keys + {reserveAnswer}
      && AllocSize(size) <= s.kernel.arena.regions[reserveAnswer] == granted
      && (forall b :: b in k.arena.regions ==> s.kernel.arena.regions[b] == k.arena.regions[b])
    // ... exactly one heap is registered under the new handle, which is returned ...
    ensures reserveAnswer != A.FAILED ==>
      && s.ret == ToU32(uid)
      && s.kernel.objects.Keys == k.objects.Keys + {uid}
      && (forall id :: id in k.objects ==> s.kernel.objects[id] == k.objects[id])
      && s.kernel.objects[uid].HeapObject?
    // ... and it records the call's arguments, the size the arena left, the
    // address and the first character of the name; its allocator manages all
    // but the prefix.
    ensures reserveAnswer != A.FAILED ==>
      var h := s.kernel.objects[uid].heap;
      && h.uid == uid && h.partitionId == partitionId && h.flags == flags
      && h.size == granted && h.size >= AllocSize(size) && h.address == reserveAnswer
      && h.name == StoredName(name)
      && h.alloc == SA.Init(ToU32(reserveAnswer + HEAP_PREFIX), ToU32(granted - HEAP_PREFIX))
  {
    var addr := reserveAnswer;
    if addr == A.FAILED then
      Step(k, SCE_KERNEL_ERROR_NO_MEMORY)
    else
      var allocSize := granted;
      var heap := NewHeap(uid, partitionId, allocSize, flags, name, addr);
      Step(Kernel(A.Reserve(k.arena, addr, allocSize), Create(k.objects, uid, HeapObject(heap))),
           ToU32(uid))
  }

  /** `sceKernelAllocHeapMemory(heapId, size)`. On a live heap the block
      allocator, asked for `size` plus the block overhead, answers `answer`. */
  function AllocHeapMemory(k: Kernel, heapId: i32, size: i32, answer: u32): (s: Step)
    // A handle that is not a live heap: the lookup error, and nothing changes.
    ensures GetHeap(k.objects, heapId).Failure? ==>
      s == Step(k, SCE_KERNEL_ERROR_UNKNOWN_UID)
    // A live heap: the allocator's answer is returned as is; the arena, every
    // other object and the heap's other fields are unchanged ...
    ensures GetHeap(k.objects, heapId).Success? ==>
      var h := GetHeap(k.objects, heapId).value;
      && s.ret == answer
      && s.kernel.arena == k.arena
      && s.kernel.objects.Keys == k.objects.Keys
      && (forall id :: id in k.objects && id != heapId ==> s.kernel.objects[id] == k.objects[id])
      && s.kernel.objects[heapId].HeapObject?
      && s.kernel.objects[heapId].heap == h.(alloc := s.kernel.objects[heapId].heap.alloc)
    // ... and its allocator received exactly one more request, of size + 8
    // bytes (wrapping at 2^32) with the flag argument `true`.
    ensures GetHeap(k.objects, heapId).Success? ==>
      var a := GetHeap(k.objects, heapId).value.alloc;
      var a' := s.kernel.objects[heapId].heap.alloc;
      && a'.start == a.start && a'.length == a.length
      && a'.requests == a.requests + [SA.Request(ToU32(HEAP_BLOCK_HEADER_SIZE + size), true, answer)]
  {
    match GetHeap(k.objects, heapId)
    case Failure(error) => Step(k, error)
    case Success(heap) =>
      var memSize := ToU32(HEAP_BLOCK_HEADER_SIZE + size);
      var (alloc', addr) := SA.Alloc(heap.alloc, memSize, true, answer);
      Step(k.(objects := k.objects[heapId := HeapObject(heap.(alloc := alloc'))]), addr)
  }

  /** `sceKernelDeleteHeap(heapId)`. Outstanding blocks are not checked. */
  function DeleteHeap(k: Kernel, heapId: i32): (s: Step)
    // A handle that is not a live heap: the lookup error, and nothing changes.
    ensures GetHeap(k.objects, heapId).Failure? ==>
      s == Step(k, SCE_KERNEL_ERROR_UNKNOWN_UID)
    // A live heap: its base address is released, its recorded uid is retired
    // if that uid holds a heap, nothing else changes, and 0 is returned.
    ensures GetHeap(k.objects, heapId).Success? ==>
      var h := GetHeap(k.objects, heapId).value;
      && s.ret == 0
      && s.kernel.arena.regions.Keys == k.arena.regions.Keys - {h.address}
      && (forall b :: b in s.kernel.arena.regions ==> s.kernel.arena.regions[b] == k.arena.regions[b])
      && (GetHeap(k.objects, h.uid).Success? ==> s.kernel.objects.Keys == k.objects.Keys - {h.uid})
      && (GetHeap(k.objects, h.uid).Failure? ==> s.kernel.objects == k.objects)
      && (forall id :: id in s.kernel.objects ==> s.kernel.objects[id] == k.objects[id])
  {
    match GetHeap(k.objects, heapId)
    case Failure(error) => Step(k, error)
    case Success(heap) =>
      Step(Kernel(A.Release(k.arena, heap.address), Destroy(k.objects, heap.uid)), 0)
  }

  /** A registered heap agrees with its handle and with the arena: it is filed
      under its own uid, its size is the length reserved at its address, and its
      allocator manages the range after the 128-byte prefix. */
  predicate HeapWellFormed(ar: A.Arena, id: i32, h: Heap)
  {
    && h.uid == id
    && h.address in ar.regions
    && ar.regions[h.address] == h.size
    && h.alloc.start == ToU32(h.address + HEAP_PREFIX)
    && h.alloc.length == ToU32(h.size - HEAP_PREFIX)
    && |h.name| == 1
  }

  predicate IsHeap(k: Kernel, id: i32)
  {
    id in k.objects && k.objects[id].HeapObject?
  }

  /** The kernel invariant: the arena is consistent, every heap is well formed,
      and no two heaps share a base address. */
  predicate Inv(k: Kernel)
  {
    && A.Valid(k.arena)
    && (forall id :: IsHeap(k, id) ==> HeapWellFormed(k.arena, id, k.objects[id].heap))
    && (forall id1, id2 :: IsHeap(k, id1) && IsHeap(k, id2) && id1 != id2 ==>
          k.objects[id1].heap.address != k.objects[id2].heap.address)
  }

  lemma CreatePreservesInv(k: Kernel, partitionId: i32, size: i32, flags: i32, name: string,
                           reserveAnswer: u32, granted: u32, uid: i32)
    requires Inv(k)
    requires size <= 0x7FFF_FFFC
    requires A.ReserveAnswer(k.arena, AllocSize(size), reserveAnswer, granted)
    requires reserveAnswer != A.FAILED ==> uid !in k.objects
    ensures Inv(CreateHeap(k, partitionId, size, flags, name, reserveAnswer, granted, uid).kernel)
  {
    var k' := CreateHeap(k, partitionId, size, flags, name, reserveAnswer, granted, uid).kernel;
    if reserveAnswer != A.FAILED {
      forall id | IsHeap(k', id)
        ensures HeapWellFormed(k'.arena, id, k'.objects[id].heap)
      {
        if id != uid {
          assert IsHeap(k, id);
        }
      }
      forall id1, id2 | IsHeap(k', id1) && IsHeap(k', id2) && id1 != id2
        ensures k'.objects[id1].heap.address != k'.objects[id2].heap.address
      {
        if id1 != uid {
          assert IsHeap(k, id1);
        }
        if id2 != uid {
          assert IsHeap(k, id2);
        }
      }
    }
  }

  lemma AllocPreservesInv(k: Kernel, heapId: i32, size: i32, answer: u32)
    requires Inv(k)
    ensures Inv(AllocHeapMemory(k, heapId, size, answer).kernel)
  {
    var k' := AllocHeapMemory(k, heapId, size, answer).kernel;
    if GetHeap(k.objects, heapId).Success? {
      forall id | IsHeap(k', id)
        ensures HeapWellFormed(k'.arena, id, k'.objects[id].heap)
      {
        assert IsHeap(k, id);
      }
      forall id1, id2 | IsHeap(k', id1) && IsHeap(k', id2) && id1 != id2
        ensures k'.objects[id1].heap.address != k'.objects[id2].heap.address
      {
        assert IsHeap(k, id1) && IsHeap(k, id2);
      }
    }
  }

  lemma DeletePreservesInv(k: Kernel, heapId: i32)
    requires Inv(k)
    ensures Inv(DeleteHeap(k, heapId).kernel)
  {
    var k' := DeleteHeap(k, heapId).kernel;
    if GetHeap(k.objects, heapId).Success? {
      var h := GetHeap(k.objects, heapId).value;
      assert IsHeap(k, heapId);
      forall id | IsHeap(k', id)
        ensures HeapWellFormed(k'.arena, id, k'.objects[id].heap)
      {
        assert IsHeap(k, id);
        assert id != heapId;
        assert k.objects[id].heap.address != h.address;
      }
      forall id1, id2 | IsHeap(k', id1) && IsHeap(k', id2) && id1 != id2
        ensures k'.objects[id1].heap.address != k'.objects[id2].heap.address
      {
        assert IsHeap(k, id1) && IsHeap(k, id2);
      }
    }
  }

  /** Deleting a live heap retires exactly the handle it was looked up by:
      afterwards that handle no longer resolves, so allocating from it or
      deleting it again fails with the lookup error and changes nothing. */
  lemma DeleteRetiresHandle(k: Kernel, heapId: i32, size: i32, answer: u32)
    requires Inv(k)
    requires IsHeap(k, heapId)
    ensures var k' := DeleteHeap(k, heapId).kernel;
      && k'.objects.Keys == k.objects.Keys - {heapId}
      && GetHeap(k'.objects, heapId).Failure?
      && AllocHeapMemory(k', heapId, size, answer) == Step(k', SCE_KERNEL_ERROR_UNKNOWN_UID)
      && DeleteHeap(k', heapId) == Step(k', SCE_KERNEL_ERROR_UNKNOWN_UID)
  {
    assert HeapWellFormed(k.arena, heapId, k.objects[heapId].heap);
  }

  /** Deleting a heap straight after creating it restores the arena and the
      pool exactly and returns 0. */
  lemma CreateThenDelete(k: Kernel, partitionId: i32, size: i32, flags: i32, name: string,
                         reserveAnswer: u32, granted: u32, uid: i32)
    requires size <= 0x7FFF_FFFC
    requires AllocSize(size) <= granted
    requires A.Grantable(k.arena, reserveAnswer, granted)
    requires uid !in k.objects
    ensures var c := CreateHeap(k, partitionId, size, flags, name, reserveAnswer, granted, uid);
      DeleteHeap(c.kernel, uid) == Step(k, 0)
  {
    A.ReleaseAfterReserve(k.arena, reserveAnswer, granted);
    DestroyAfterCreate(k.objects, uid, NewHeap(uid, partitionId, granted, flags, name, reserveAnswer));
  }

  /** A heap whose reserved size is smaller than the 128-byte prefix is still
      created; its allocator length `size - 128` wraps around to a value of at
      least 2^32 - 128. */
  lemma SmallHeapLengthWraps(k: Kernel, partitionId: i32, size: i32, flags: i32, name: string,
                             reserveAnswer: u32, granted: u32, uid: i32)
    requires size <= 0x7FFF_FFFC
    requires AllocSize(size) <= granted < HEAP_PREFIX as int
    requires A.Grantable(k.arena, reserveAnswer, granted)
    requires uid !in k.objects
    ensures var s := CreateHeap(k, partitionId, size, flags, name, reserveAnswer, granted, uid);
      && s.ret == ToU32(uid)
      && s.kernel.objects[uid].heap.alloc.length == granted + TWO_32 - HEAP_PREFIX as int
      && s.kernel.objects[uid].heap.alloc.length >= TWO_32 - HEAP_PREFIX as int
  {
  }
}
