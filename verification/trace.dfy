/** Sequences of heap system calls, each with the answers its collaborators
    gave, and what holds across a whole sequence. */
module Trace {
  import opened Word32
  import opened Registry
  import Wrappers
  import opened HeapService
  import A = Arena
  import SA = SubAllocator

  datatype Call =
    | CreateCall(partitionId: i32, size: i32, flags: i32, name: string, reserveAnswer: u32, granted: u32, uid: i32)
    | AllocCall(heapId: i32, size: i32, answer: u32)
    | DeleteCall(heapId: i32)

  /** The call is one the guest may make (create sizes do not overflow) and
      the collaborators' answers keep their contracts in state `k`. */
  predicate Enabled(k: Kernel, c: Call)
  {
    match c
    case CreateCall(_, size, _, _, reserveAnswer, granted, uid) =>
      && size <= 0x7FFF_FFFC
      && A.ReserveAnswer(k.arena, AllocSize(size), reserveAnswer, granted)
      && (reserveAnswer != A.FAILED ==> uid !in k.objects)
    case AllocCall(_, _, _) => true
    case DeleteCall(_) => true
  }

  function Apply(k: Kernel, c: Call): Step
    requires Enabled(k, c)
  {
    match c
    case CreateCall(partitionId, size, flags, name, reserveAnswer, granted, uid) =>
      CreateHeap(k, partitionId, size, flags, name, reserveAnswer, granted, uid)
    case AllocCall(heapId, size, answer) => AllocHeapMemory(k, heapId, size, answer)
    case DeleteCall(heapId) => DeleteHeap(k, heapId)
  }

  /** Every call of the sequence is enabled in the state the earlier ones leave. */
  predicate Admissible(k: Kernel, calls: seq<Call>)
    decreases |calls|
  {
    |calls| == 0 || (Enabled(k, calls[0]) && Admissible(Apply(k, calls[0]).kernel, calls[1..]))
  }

  /** The final state and the words returned, in call order. */
  function Run(k: Kernel, calls: seq<Call>): (r: (Kernel, seq<u32>))
    requires Admissible(k, calls)
    ensures |r.1| == |calls|
    decreases |calls|
  {
    if |calls| == 0 then (k, [])
    else
      var s := Apply(k, calls[0]);
      var rest := Run(s.kernel, calls[1..]);
      (rest.0, [s.ret] + rest.1)
  }

  /** Every call preserves the kernel invariant. */
  lemma ApplyPreservesInv(k: Kernel, c: Call)
    requires Inv(k) && Enabled(k, c)
    ensures Inv(Apply(k, c).kernel)
  {
    match c
    case CreateCall(partitionId, size, flags, name, reserveAnswer, granted, uid) =>
      CreatePreservesInv(k, partitionId, size, flags, name, reserveAnswer, granted, uid);
    case AllocCall(heapId, size, answer) => AllocPreservesInv(k, heapId, size, answer);
    case DeleteCall(heapId) => DeletePreservesInv(k, heapId);
  }

  /** The invariant holds after any admissible sequence of calls. */
  lemma {:induction false} RunPreservesInv(k: Kernel, calls: seq<Call>)
    requires Inv(k) && Admissible(k, calls)
    ensures Inv(Run(k, calls).0)
    decreases |calls|
  {
    if |calls| > 0 {
      ApplyPreservesInv(k, calls[0]);
      RunPreservesInv(Apply(k, calls[0]).kernel, calls[1..]);
    }
  }

  /** No call of the sequence registers an object under `id`. */
  predicate NeverIssues(calls: seq<Call>, id: i32)
  {
    forall i :: 0 <= i < |calls| && calls[i].CreateCall? ==> calls[i].uid != id
  }

  /** A handle that is not live stays unresolvable through any sequence of
      calls that does not hand it out again: heap calls on it keep failing
      with the lookup error. */
  lemma {:induction false} RunKeepsHandleRetired(k: Kernel, calls: seq<Call>, id: i32)
    requires Admissible(k, calls)
    requires id !in k.objects
    requires NeverIssues(calls, id)
    ensures id !in Run(k, calls).0.objects
    ensures GetHeap(Run(k, calls).0.objects, id) == Wrappers.Failure(SCE_KERNEL_ERROR_UNKNOWN_UID)
    decreases |calls|
  {
    if |calls| > 0 {
      var k' := Apply(k, calls[0]).kernel;
      assert id !in k'.objects by {
        if calls[0].CreateCall? {
          assert calls[0].uid != id;
        }
      }
      assert NeverIssues(calls[1..], id) by {
        forall i | 0 <= i < |calls[1..]| && calls[1..][i].CreateCall?
          ensures calls[1..][i].uid != id
        {
          assert calls[1..][i] == calls[i + 1];
        }
      }
      RunKeepsHandleRetired(k', calls[1..], id);
    }
  }

  /** The alloc calls `(size, answer)` on one heap, in order. */
  function AllocCalls(heapId: i32, reqs: seq<(i32, u32)>): (cs: seq<Call>)
    ensures |cs| == |reqs|
    ensures forall i :: 0 <= i < |reqs| ==> cs[i] == AllocCall(heapId, reqs[i].0, reqs[i].1)
  {
    seq(|reqs|, i requires 0 <= i < |reqs| => AllocCall(heapId, reqs[i].0, reqs[i].1))
  }

  /** What the block allocator is asked for by those calls: each size plus
      the block overhead, wrapping at 2^32, with the allocator's answer. */
  function BlockRequests(reqs: seq<(i32, u32)>): (br: seq<(u32, u32)>)
    ensures |br| == |reqs|
    ensures forall i :: 0 <= i < |reqs| ==>
      br[i] == (ToU32(HEAP_BLOCK_HEADER_SIZE + reqs[i].0), reqs[i].1)
  {
    seq(|reqs|, i requires 0 <= i < |reqs| => (ToU32(HEAP_BLOCK_HEADER_SIZE + reqs[i].0), reqs[i].1))
  }

  /** A series of allocations from one live heap returns the allocator's
      answers in order, leaves the arena alone, and leaves the heap's
      allocator exactly as replaying the requests `size + 8` with the flag
      `true` would. */
  lemma {:induction false} AllocRun(k: Kernel, heapId: i32, reqs: seq<(i32, u32)>)
    requires IsHeap(k, heapId)
    ensures Admissible(k, AllocCalls(heapId, reqs))
    ensures var r := Run(k, AllocCalls(heapId, reqs));
      && r.1 == seq(|reqs|, i requires 0 <= i < |reqs| => reqs[i].1)
      && r.0.arena == k.arena
      && IsHeap(r.0, heapId)
      && r.0.objects[heapId].heap.alloc
         == SA.AllocAll(k.objects[heapId].heap.alloc, BlockRequests(reqs), true)
    decreases |reqs|
  {
    var calls := AllocCalls(heapId, reqs);
    if |reqs| > 0 {
      var s := Apply(k, calls[0]);
      var a := k.objects[heapId].heap.alloc;
      var br := BlockRequests(reqs);
      assert s.kernel.objects[heapId].heap.alloc == SA.Alloc(a, br[0].0, true, br[0].1).0;
      assert calls[1..] == AllocCalls(heapId, reqs[1..]);
      assert br[1..] == BlockRequests(reqs[1..]);
      AllocRun(s.kernel, heapId, reqs[1..]);
      var answers := seq(|reqs|, i requires 0 <= i < |reqs| => reqs[i].1);
      assert answers == [reqs[0].1] + seq(|reqs| - 1, i requires 0 <= i < |reqs| - 1 => reqs[1..][i].1);
    } else {
      assert Run(k, calls).1 == [];
    }
  }

  /** A whole session on an empty kernel: create a heap under handle 1,
      allocate one block, delete the heap, allocate again. The calls return
      the handle, the block allocator's answer, 0 and the lookup error, and
      the kernel ends exactly as it began. */
  lemma Session(partitionId: i32, size: i32, flags: i32, name: string, base: u32, granted: u32,
                blockSize: i32, blockAddress: u32, laterSize: i32)
    requires 0 <= size <= 0x7FFF_FFFC
    requires AllocSize(size) <= granted
    requires base != A.FAILED && base + granted <= TWO_32
    ensures var k0 := Kernel(A.Arena(map[]), map[]);
      var calls := [CreateCall(partitionId, size, flags, name, base, granted, 1),
                    AllocCall(1, blockSize, blockAddress),
                    DeleteCall(1),
                    AllocCall(1, laterSize, blockAddress)];
      && Admissible(k0, calls)
      && Run(k0, calls).0 == k0
      && Run(k0, calls).1 == [1, blockAddress, 0, SCE_KERNEL_ERROR_UNKNOWN_UID]
  {
    var k0 := Kernel(A.Arena(map[]), map[]);
    var c0 := CreateCall(partitionId, size, flags, name, base, granted, 1);
    var c1 := AllocCall(1, blockSize, blockAddress);
    var c2 := DeleteCall(1);
    var c3 := AllocCall(1, laterSize, blockAddress);
    var s0 := Apply(k0, c0);
    var k1 := s0.kernel;
    assert s0.ret == 1;
    var s1 := Apply(k1, c1);
    var k2 := s1.kernel;
    assert s1.ret == blockAddress;
    assert k2.objects[1].heap.uid == 1;
    var s2 := Apply(k2, c2);
    assert s2 == Step(k0, 0) by {
      assert s2.kernel.arena.regions == map[];
      assert s2.kernel.objects == map[];
    }
    var s3 := Apply(k0, c3);
    assert s3 == Step(k0, SCE_KERNEL_ERROR_UNKNOWN_UID);
    assert [c3][1..] == [];
    assert Run(k0, [c3]).1 == [s3.ret] + [];
    assert Run(k0, [c3]).0 == k0 && Run(k0, [c3]).1 == [SCE_KERNEL_ERROR_UNKNOWN_UID];
    assert [c2, c3][1..] == [c3];
    assert Run(k2, [c2, c3]).1 == [s2.ret] + [SCE_KERNEL_ERROR_UNKNOWN_UID];
    assert Run(k2, [c2, c3]).0 == k0 && Run(k2, [c2, c3]).1 == [0, SCE_KERNEL_ERROR_UNKNOWN_UID];
    assert [c1, c2, c3][1..] == [c2, c3];
    assert Run(k1, [c1, c2, c3]).1 == [s1.ret] + [0, SCE_KERNEL_ERROR_UNKNOWN_UID];
    assert Run(k1, [c1, c2, c3]).0 == k0 && Run(k1, [c1, c2, c3]).1 == [blockAddress, 0, SCE_KERNEL_ERROR_UNKNOWN_UID];
    assert [c0, c1, c2, c3][1..] == [c1, c2, c3];
    assert Run(k0, [c0, c1, c2, c3]).1 == [s0.ret] + [blockAddress, 0, SCE_KERNEL_ERROR_UNKNOWN_UID];
  }
}
