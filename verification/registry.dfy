/** The kernel object pool, reduced to what the heap service sees: a map from
    handles to tagged objects with a typed lookup. How handles are issued is
    not modelled; a newly created object receives a handle that is not live. */
module Registry {
  import opened Word32
  import opened Wrappers
  import opened HeapRecord

  /** `Heap::GetMissingErrorCode()`: the error a heap lookup reports. */
  const SCE_KERNEL_ERROR_UNKNOWN_UID: u32 := 0x8002_00CB

  /** A pool entry: a heap, or an object of some other kind (its type id). */
  datatype KernelObject = HeapObject(heap: Heap) | OtherObject(idType: int)

  type Pool = map<i32, KernelObject>

  /** `kernelObjects.Get<Heap>(id, error)`: the heap behind a handle, or the
      heap's missing-object error when the handle is not live or names an
      object of another kind. */
  function GetHeap(pool: Pool, id: i32): (r: Result<Heap, u32>)
    ensures r.Success? <==> id in pool && pool[id].HeapObject?
    ensures r.Success? ==> pool[id] == HeapObject(r.value)
    ensures r.Failure? ==> r.error == SCE_KERNEL_ERROR_UNKNOWN_UID
  {
    if id in pool && pool[id].HeapObject? then Success(pool[id].heap)
    else Failure(SCE_KERNEL_ERROR_UNKNOWN_UID)
  }

  /** `kernelObjects.Create(obj)`, which is handed the handle `uid`. */
  function Create(pool: Pool, uid: i32, obj: KernelObject): (r: Pool)
    requires uid !in pool
    ensures r.Keys == pool.Keys + {uid}
    ensures r[uid] == obj
    ensures forall id :: id in pool ==> r[id] == pool[id]
  {
    pool[uid := obj]
  }

  /** `kernelObjects.Destroy<Heap>(uid)`: a handle that holds a heap is
      retired; a handle that is not live, or holds another kind of object, is
      left alone. */
  function Destroy(pool: Pool, uid: i32): (r: Pool)
    ensures GetHeap(pool, uid).Success? ==> r.Keys == pool.Keys - {uid}
    ensures GetHeap(pool, uid).Failure? ==> r == pool
    ensures forall id :: id in r ==> r[id] == pool[id]
  {
    if uid in pool && pool[uid].HeapObject? then pool - {uid} else pool
  }

  /** A created heap is found under its new handle. */
  lemma GetAfterCreate(pool: Pool, uid: i32, h: Heap)
    requires uid !in pool
    ensures GetHeap(Create(pool, uid, HeapObject(h)), uid) == Success(h)
  {
  }

  /** A destroyed handle does not resolve to a heap; every other handle
      resolves as before. */
  lemma GetAfterDestroy(pool: Pool, uid: i32, id: i32)
    ensures GetHeap(Destroy(pool, uid), uid) == Failure(SCE_KERNEL_ERROR_UNKNOWN_UID)
    ensures id != uid ==> GetHeap(Destroy(pool, uid), id) == GetHeap(pool, id)
  {
  }

  /** Destroying a heap's handle just created restores the pool. */
  lemma DestroyAfterCreate(pool: Pool, uid: i32, h: Heap)
    requires uid !in pool
    ensures Destroy(Create(pool, uid, HeapObject(h)), uid) == pool
  {
  }
}
