/** `HashFilter32` as it runs: a bucket array and a counter changed in place. */
module HashFilterInPlace {
  import opened Bits
  import opened HashFilter
  import opened HashFilterTrace

  const UINT32: nat := 0x1_0000_0000

  class HashFilter32 {
    const buckets: array<Bucket>
    const mask: nat      // num_buckets_mask_
    var size: nat        // a 32-bit counter

    ghost predicate Good()
      reads this, buckets
    {
      && buckets.Length == mask + 1 && PowerOfTwo(mask + 1)
      && size == Occupied(buckets[..]) % UINT32
    }

    constructor (numBuckets: nat)
      requires PowerOfTwo(numBuckets)
      ensures Good() && fresh(buckets) && buckets[..] == Cleared(numBuckets)
    {
      mask := numBuckets - 1;
      size := 0;
      buckets := new Bucket[numBuckets];
      new;
      Clear();
    }

    method Clear()
      requires buckets.Length == mask + 1 && PowerOfTwo(mask + 1)
      modifies buckets, `size
      ensures Good() && buckets[..] == Cleared(mask + 1) && size == 0
    {
      forall i | 0 <= i < buckets.Length { buckets[i] := [0, 0, 0, 0]; }
      size := 0;
      assert buckets[..] == Cleared(mask + 1);
      ClearedIsEmpty(mask + 1, mask);
    }

    /** `add`: put `fp` into the first free entry of a bucket, if there is one. */
    method Add(fp: nat, index: nat) returns (ok: bool)
      requires index < buckets.Length
      modifies buckets
      ensures ok == !Full(old(buckets[index]))
      ensures buckets[..] == if ok then Store(old(buckets[..]), index, FreeSlot(old(buckets[index])), fp)
                             else old(buckets[..])
    {
      for k := 0 to 4
        invariant buckets[..] == old(buckets[..])
        invariant forall j | 0 <= j < k :: buckets[index][j] != 0
      {
        if buckets[index][k] == 0 {
          assert FreeSlot(buckets[index]) == k;
          buckets[index] := buckets[index][k := fp];
          return true;
        }
      }
      return false;
    }

    method Insert(fingerprint: nat, seeds: Seeds) returns (ok: bool)
      requires Good()
      modifies buckets, `size
      ensures Good()
      ensures WellFormed(old(buckets[..])) && old(buckets[..]) != []
      ensures var o := HashFilter.Insert(old(buckets[..]), fingerprint, seeds);
              ok == o.ok && buckets[..] == o.table
      ensures ok <==> !Fails(old(buckets[..]), fingerprint, seeds)
    {
      ghost var start := buckets[..];
      InsertFailsIff(start, fingerprint, seeds);
      ghost var goal := HashFilter.Insert(start, fingerprint, seeds);
      InsertOccupies(start, fingerprint, seeds);
      var fp := fingerprint % UINT32;
      if fp == 0 {
        fp := SetLowBit(fingerprint / UINT32 % UINT32);
      }
      ok := Place(fp, HomeBucket(fingerprint, mask + 1), seeds, goal);
      if ok {
        NextCount(Occupied(start));
        size := (size + 1) % UINT32;
      }
    }

    /** The part of `insert` that changes the buckets. */
    method Place(fp: nat, home: nat, seeds: Seeds, ghost goal: Outcome) returns (ok: bool)
      requires buckets.Length == mask + 1 && PowerOfTwo(mask + 1) && home < buckets.Length
      requires goal == PlaceFrom(buckets[..], home, fp, SlotsOf(seeds))
      modifies buckets
      ensures ok == goal.ok && buckets[..] == goal.table
    {
      ok := Add(fp, home);
      if !ok {
        PartnerBelow(home, fp, mask + 1);
        var index := Partner(home, fp, mask);
        ok := Add(fp, index);
        if !ok {
          ok := KickAll(fp, index, seeds, goal);
        }
      }
    }

    /** One pass of the inner loop: swap `fp` with an entry and try to place what came out. */
    method Kick(fp: nat, index: nat, seed: nat, ghost slots: Slots, ghost step: nat, ghost goal: Outcome)
      returns (ok: bool, fp': nat, index': nat)
      requires buckets.Length == mask + 1 && PowerOfTwo(mask + 1) && index < buckets.Length
      requires step < ROUNDS * KICKS && slots[step] == seed % 4
      requires goal == Chain(buckets[..], index, fp, slots, step)
      modifies buckets
      ensures index' < buckets.Length
      ensures goal == if ok then Outcome(buckets[..], true, fp', index')
                      else Chain(buckets[..], index', fp', slots, step + 1)
    {
      ghost var t1, next, evicted := ChainSwaps(buckets[..], index, fp, slots, step, goal);
      var slot := seed % 4;
      fp' := buckets[index][slot];
      buckets[index] := buckets[index][slot := fp];
      assert buckets[..] == t1;
      index' := Partner(index, fp', mask);
      ok := Add(fp', index');
    }

    /** The inner loop of `insert`: one random number drives 32 kicks. */
    method KickRound(fp: nat, index: nat, seeds: Seeds, round: nat, ghost slots: Slots, ghost goal: Outcome)
      returns (ok: bool, fp': nat, index': nat)
      requires buckets.Length == mask + 1 && PowerOfTwo(mask + 1) && index < buckets.Length && round < ROUNDS
      requires slots == SlotsOf(seeds) && goal == Chain(buckets[..], index, fp, slots, KICKS * round)
      modifies buckets
      ensures index' < buckets.Length
      ensures goal == if ok then Outcome(buckets[..], true, fp', index')
                      else Chain(buckets[..], index', fp', slots, KICKS * (round + 1))
    {
      ok, fp', index' := false, fp, index;
      var seed := seeds[round];
      ghost var step := KICKS * round;
      for j := 0 to KICKS
        invariant index' < buckets.Length && seed == Shifted(seeds[round], j)
        invariant step == KICKS * round + j && goal == Chain(buckets[..], index', fp', slots, step)
      {
        SlotInRound(seeds, round, j);
        ok, fp', index' := Kick(fp', index', seed, slots, step, goal);
        if ok { return; }
        seed, step := seed / 4, step + 1;
      }
      ok := false;
    }

    /** The outer loop of `insert`. */
    method KickAll(fp0: nat, index0: nat, seeds: Seeds, ghost goal: Outcome) returns (ok: bool)
      requires buckets.Length == mask + 1 && PowerOfTwo(mask + 1) && index0 < buckets.Length
      requires goal == Chain(buckets[..], index0, fp0, SlotsOf(seeds), 0)
      modifies buckets
      ensures ok == goal.ok && buckets[..] == goal.table
    {
      var fp: nat, index: nat := fp0, index0;
      ghost var slots := SlotsOf(seeds);
      for i := 0 to ROUNDS
        invariant index < buckets.Length
        invariant goal == Chain(buckets[..], index, fp, slots, KICKS * i)
      {
        ok, fp, index := KickRound(fp, index, seeds, i, slots, goal);
        if ok { return; }
      }
      ok := false;
    }

    method Test(fingerprint: nat) returns (found: bool)
      requires Good()
      ensures WellFormed(buckets[..]) && found == HashFilter.Test(buckets[..], fingerprint)
    {
      var fp := fingerprint % UINT32;
      if fp == 0 {
        fp := SetLowBit(fingerprint / UINT32 % UINT32);
      }
      var index := HomeBucket(fingerprint, mask + 1);
      PartnerBelow(index, fp, mask + 1);
      found := FindTwo(buckets[index], buckets[Partner(index, fp, mask)], fp);
    }
  }

  /** `find_two`, the scalar branch. */
  method FindTwo(b0: Bucket, b1: Bucket, fp: nat) returns (found: bool)
    ensures found == (fp in b0 || fp in b1)
  {
    for k := 0 to 4
      invariant fp !in b0[..k]
    {
      if b0[k] == fp { return true; }
    }
    for k := 0 to 4
      invariant fp !in b1[..k]
    {
      if b1[k] == fp { return true; }
    }
    return false;
  }

  lemma {:induction false} NextCount(n: nat)
    ensures (n % UINT32 + 1) % UINT32 == (n + 1) % UINT32
  {
  }
}
