/** Offset pairs and the cache that deduplicates them (main.go:92-126). */
module Offsets {

  const Two32: int := 0x1_0000_0000

  /** One compressed block of the archive: `End` is exclusive and 0 means "to
      the end of the file". A pair is created once and never changed, so its
      fields are constants; entries share a pair by holding the same reference. */
  class OffsetPair {
    const Start: int
    const End: int

    constructor (start: int, end: int)
      ensures Start == start && End == end
    {
      Start := start;
      End := end;
    }
  }

  /** The cache key `uint64(start)<<32 | uint64(uint32(end))`: the shift keeps
      the low 32 bits of `start` in the high half, `uint32` keeps the low 32 bits
      of `end` in the low half, so the `|` is a sum. Dafny's `%` is Euclidean,
      which matches the two's-complement reinterpretation of negative values. */
  function Key(start: int, end: int): (k: int)
    ensures 0 <= k < Two32 * Two32
  {
    (start % Two32) * Two32 + end % Two32
  }

  /** Two requests share a key exactly when their starts agree modulo 2^32 and
      their ends agree modulo 2^32. */
  lemma KeyEqualIff(a: int, b: int, c: int, d: int)
    ensures Key(a, b) == Key(c, d) <==> a % Two32 == c % Two32 && b % Two32 == d % Two32
  {
  }

  /** The key is not injective: the block at 2^32 + 1 files under the same key
      as the block at 1, so archives past 4 GiB can collide. */
  lemma KeyCollides()
    ensures Key(1, 0) == Key(Two32 + 1, 0)
  {
  }

  /** Below 4 GiB the key identifies the pair. */
  lemma KeyInjectiveBelow4G(a: int, b: int, c: int, d: int)
    requires 0 <= a < Two32 && 0 <= b < Two32 && 0 <= c < Two32 && 0 <= d < Two32
    ensures Key(a, b) == Key(c, d) <==> a == c && b == d
  {
    KeyEqualIff(a, b, c, d);
  }

  /** Every pair is filed under its own key. */
  ghost predicate FiledUnderOwnKeys(pairs: map<int, OffsetPair>) {
    forall k :: k in pairs ==> Key(pairs[k].Start, pairs[k].End) == k
  }

  /** `offsetCache`: the map from key to the pair first created for it. */
  class OffsetCache {
    var pairs: map<int, OffsetPair>

    ghost predicate Valid()
      reads this
    {
      FiledUnderOwnKeys(pairs)
    }

    /** `newOffsetCache` */
    constructor ()
      ensures Valid() && pairs == map[]
    {
      pairs := map[];
    }

    /** `getOrCreate`: a hit returns the stored pair and changes nothing; a
        miss stores and returns a new pair holding exactly the arguments. On a
        hit the returned pair is only guaranteed to agree with the arguments
        modulo 2^32 in each field. */
    method GetOrCreate(start: int, end: int) returns (p: OffsetPair)
      requires Valid()
      modifies this
      ensures Valid()
      ensures Key(start, end) in pairs && p == pairs[Key(start, end)]
      ensures Key(p.Start, p.End) == Key(start, end)
      ensures Key(start, end) in old(pairs) ==> pairs == old(pairs)
      ensures Key(start, end) !in old(pairs) ==>
        fresh(p) && p.Start == start && p.End == end && pairs == old(pairs)[Key(start, end) := p]
    {
      var key := Key(start, end);
      if key in pairs {
        return pairs[key];
      }
      p := new OffsetPair(start, end);
      pairs := pairs[key := p];
    }
  }
}
