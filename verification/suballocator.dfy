/** The per-heap block allocator, kept abstract: its free-list algorithm is not
    part of this model. It remembers the range it was initialised with and the
    log of allocation requests made to it; each request's result is an opaque
    word chosen by the allocator. */
module SubAllocator {
  import opened Word32

  /** One `Alloc(size, flag)` call and the word it returned. */
  datatype Request = Request(size: u32, flag: bool, result: u32)

  datatype SubAllocator = SubAllocator(start: u32, length: u32, requests: seq<Request>)

  /** `Init(start, length)`: a fresh allocator over the given range, with no
      requests made yet. */
  function Init(start: u32, length: u32): (r: SubAllocator)
    ensures r.start == start && r.length == length
    ensures r.requests == []
  {
    SubAllocator(start, length, [])
  }

  /** `Alloc(size, flag)`, whose opaque result is `answer`: the request is
      appended to the log and the result handed back unchanged. */
  function Alloc(a: SubAllocator, size: u32, flag: bool, answer: u32): (r: (SubAllocator, u32))
    ensures r.1 == answer
    ensures r.0.start == a.start && r.0.length == a.length
    ensures |r.0.requests| == |a.requests| + 1
    ensures r.0.requests[..|a.requests|] == a.requests
    ensures r.0.requests[|a.requests|] == Request(size, flag, answer)
  {
    (a.(requests := a.requests + [Request(size, flag, answer)]), answer)
  }

  /** Replays a series of requests, `(size, answer)` pairs, all with the same flag argument. */
  function AllocAll(a: SubAllocator, calls: seq<(u32, u32)>, flag: bool): SubAllocator
    decreases |calls|
  {
    if |calls| == 0 then a
    else AllocAll(Alloc(a, calls[0].0, flag, calls[0].1).0, calls[1..], flag)
  }

  /** The log records every replayed request, in order, after the earlier ones,
      and the range never moves. */
  lemma {:induction false} AllocAllLog(a: SubAllocator, calls: seq<(u32, u32)>, flag: bool)
    ensures AllocAll(a, calls, flag).start == a.start
    ensures AllocAll(a, calls, flag).length == a.length
    ensures AllocAll(a, calls, flag).requests
         == a.requests + seq(|calls|, i requires 0 <= i < |calls| => Request(calls[i].0, flag, calls[i].1))
    decreases |calls|
  {
    if |calls| > 0 {
      var a' := Alloc(a, calls[0].0, flag, calls[0].1).0;
      AllocAllLog(a', calls[1..], flag);
      var tail := seq(|calls| - 1, i requires 0 <= i < |calls| - 1 => Request(calls[1..][i].0, flag, calls[1..][i].1));
      var all := seq(|calls|, i requires 0 <= i < |calls| => Request(calls[i].0, flag, calls[i].1));
      assert all == [all[0]] + tail;
      assert a'.requests == a.requests + [all[0]];
    }
  }
}
