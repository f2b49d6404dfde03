/** The `Heap` kernel object: its fields and its snapshot (`DoState`) layout. */
module HeapRecord {
  import opened Word32
  import opened Wrappers
  import SA = SubAllocator

  /** A heap: its handle, the partition and flags it was created with, its
      rounded size and base address in the arena, its name and its block
      allocator. */
  datatype Heap = Heap(
    uid: i32,
    partitionId: i32,
    size: u32,
    flags: i32,
    address: u32,
    name: string,
    alloc: SA.SubAllocator)

  /** What a heap stores as its name: assigning `*Name`, a single character,
      to a `std::string` keeps only the first character of the guest's string.
      For an empty guest string that character is the terminating NUL. */
  function StoredName(guestName: string): (r: string)
    ensures |r| == 1
    ensures |guestName| > 0 ==> r[0] == guestName[0]
    ensures |guestName| == 0 ==> r[0] == '\0'
  {
    if |guestName| > 0 then [guestName[0]] else ['\0']
  }

  /** Two guest names store the same heap name exactly when they start with
      the same character (an empty name counting as NUL), and a stored name
      stores itself again. */
  lemma StoredNameFirstChar(a: string, b: string)
    ensures StoredName(a) == StoredName(b) <==>
      (if |a| > 0 then a[0] else '\0') == (if |b| > 0 then b[0] else '\0')
    ensures StoredName(StoredName(a)) == StoredName(a)
  {
    if StoredName(a) == StoredName(b) {
      assert StoredName(a)[0] == StoredName(b)[0];
    }
  }

  /** One serialised value, as written by `PointerWrap::Do`. */
  datatype Field =
    | IntField(i: i32)
    | WordField(w: u32)
    | TextField(s: string)
    | AllocField(a: SA.SubAllocator)

  /** The snapshot of a heap: uid, partitionId, size, flags, address, name,
      alloc, in that fixed order. */
  function DoState(h: Heap): (fs: seq<Field>)
    ensures |fs| == 7
    ensures fs[0] == IntField(h.uid) && fs[1] == IntField(h.partitionId)
    ensures fs[2] == WordField(h.size) && fs[3] == IntField(h.flags)
    ensures fs[4] == WordField(h.address) && fs[5] == TextField(h.name)
    ensures fs[6] == AllocField(h.alloc)
  {
    [IntField(h.uid), IntField(h.partitionId), WordField(h.size), IntField(h.flags),
     WordField(h.address), TextField(h.name), AllocField(h.alloc)]
  }

  /** Reads one heap from the front of a snapshot stream, in the order
      `DoState` writes it, and returns the heap with the rest of the stream;
      `None` when the stream does not start with a heap's seven fields. */
  function Restore(fs: seq<Field>): (r: Option<(Heap, seq<Field>)>)
    ensures r.Some? <==>
      && |fs| >= 7
      && fs[0].IntField? && fs[1].IntField? && fs[2].WordField? && fs[3].IntField?
      && fs[4].WordField? && fs[5].TextField? && fs[6].AllocField?
    ensures r.Some? ==>
      && r.value.1 == fs[7..]
      && r.value.0.uid == fs[0].i && r.value.0.partitionId == fs[1].i
      && r.value.0.size == fs[2].w && r.value.0.flags == fs[3].i
      && r.value.0.address == fs[4].w && r.value.0.name == fs[5].s
      && r.value.0.alloc == fs[6].a
  {
    if |fs| < 7 then None
    else if !fs[0].IntField? || !fs[1].IntField? || !fs[2].WordField? || !fs[3].IntField?
         || !fs[4].WordField? || !fs[5].TextField? || !fs[6].AllocField? then None
    else Some((Heap(fs[0].i, fs[1].i, fs[2].w, fs[3].i, fs[4].w, fs[5].s, fs[6].a), fs[7..]))
  }

  /** Restoring a snapshot reproduces the heap field for field and leaves the
      stream positioned just after it. */
  lemma RestoreDoState(h: Heap, rest: seq<Field>)
    ensures Restore(DoState(h) + rest) == Some((h, rest))
  {
    assert (DoState(h) + rest)[7..] == rest;
  }

  /** Conversely, whatever `Restore` accepts is exactly one heap's snapshot
      followed by the remaining stream. */
  lemma RestoreIsDoState(fs: seq<Field>, h: Heap, rest: seq<Field>)
    requires Restore(fs) == Some((h, rest))
    ensures fs == DoState(h) + rest
  {
    assert fs == fs[..7] + fs[7..];
  }

  /** Distinct heaps have distinct snapshots. */
  lemma DoStateInjective(h1: Heap, h2: Heap)
    requires DoState(h1) == DoState(h2)
    ensures h1 == h2
  {
    RestoreDoState(h1, []);
    RestoreDoState(h2, []);
  }
}
