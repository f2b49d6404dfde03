/** The shared user-memory arena from which whole heaps are reserved. Only the
    contract the heap service relies on is modelled: a reservation either
    yields a fresh region that overlaps no live one, or the failure word
    0xFFFFFFFF; a release gives back the region that starts at an address.
    The arena receives the requested size by reference and may enlarge it, so
    a granted reservation comes with the length actually reserved, at least
    the one requested. The placement flag the caller passes and the arena's
    placement policy are not modelled. */
module Arena {
  import opened Word32

  /** The arena's failure answer, C++ `(u32)-1`. */
  const FAILED: u32 := 0xFFFF_FFFF

  /** The live reservations, keyed by base address, with their lengths. */
  datatype Arena = Arena(regions: map<u32, u32>)

  predicate Disjoint(a: u32, alen: u32, b: u32, blen: u32)
  {
    a + alen <= b || b + blen <= a
  }

  /** Live regions lie inside the 32-bit address space and do not overlap. */
  predicate Valid(ar: Arena)
  {
    && (forall a :: a in ar.regions ==> a + ar.regions[a] <= TWO_32)
    && (forall a, b :: a in ar.regions && b in ar.regions && a != b ==>
          Disjoint(a, ar.regions[a], b, ar.regions[b]))
  }

  /** `base` is an address the arena may hand out for a request of `len` bytes:
      not the failure word, not a live base, and overlapping no live region. */
  predicate Grantable(ar: Arena, base: u32, len: u32)
  {
    && base != FAILED
    && base !in ar.regions
    && base + len <= TWO_32
    && forall b :: b in ar.regions ==> Disjoint(base, len, b, ar.regions[b])
  }

  /** The answers the arena may give to a request of `len` bytes: the failure
      word, or a grantable address for `granted` bytes, where `granted` is the
      size the arena leaves in the caller's variable, no less than `len`. */
  predicate ReserveAnswer(ar: Arena, len: u32, answer: u32, granted: u32)
  {
    answer == FAILED || (len <= granted && Grantable(ar, answer, granted))
  }

  /** Records the reservation of `len` bytes at the granted address `base`. */
  function Reserve(ar: Arena, base: u32, len: u32): (r: Arena)
    requires Grantable(ar, base, len)
    ensures r.regions.Keys == ar.regions.Keys + {base}
    ensures r.regions[base] == len
    ensures forall b :: b in ar.regions ==> r.regions[b] == ar.regions[b]
    ensures Valid(ar) ==> Valid(r)
  {
    Arena(ar.regions[base := len])
  }

  /** Gives back the region starting at `base`; every other region stays. */
  function Release(ar: Arena, base: u32): (r: Arena)
    ensures r.regions.Keys == ar.regions.Keys - {base}
    ensures forall b :: b in r.regions ==> r.regions[b] == ar.regions[b]
    ensures Valid(ar) ==> Valid(r)
  {
    Arena(ar.regions - {base})
  }

  /** Releasing a region just reserved restores the arena exactly. */
  lemma ReleaseAfterReserve(ar: Arena, base: u32, len: u32)
    requires Grantable(ar, base, len)
    ensures Release(Reserve(ar, base, len), base) == ar
  {
    assert Release(Reserve(ar, base, len), base).regions == ar.regions;
  }
}
