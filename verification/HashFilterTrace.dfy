/** What `HashFilter32::insert` does, told entry by entry: when it succeeds, where the fingerprint goes, and when it
    gives up. */
module HashFilterTrace {
  import opened Arithmetic
  import opened Bits
  import opened HashFilter

  /** A moment of the kick loops: the table, and the fingerprint in hand with the bucket it is for. */
  datatype Moment = Moment(table: Table, index: nat, fp: nat)

  /** No entry of the bucket is free. */
  predicate Crowded(b: Bucket) {
    forall k | 0 <= k < 4 :: b[k] != 0
  }

  predicate Blocked(a: Moment) {
    a.index < |a.table| && Crowded(a.table[a.index])
  }

  /** `t` is the table of `a` with the entry `slot` of its bucket overwritten by the fingerprint in hand. */
  predicate Overwrites(a: Moment, slot: nat, t: Table) {
    && |t| == |a.table|
    && forall i, k | 0 <= i < |t| && 0 <= k < 4 ::
         t[i][k] == if i == a.index && k == slot then a.fp else a.table[i][k]
  }

  /** One kick: the fingerprint in hand and the entry change places, and the entry is for its other bucket. */
  predicate Swaps(a: Moment, b: Moment, slot: nat) {
    && a.index < |a.table| && slot < 4 && Overwrites(a, slot, b.table)
    && b.fp == a.table[a.index][slot] && b.index == Xor(a.index, b.fp % |a.table|)
  }

  /** The fingerprint in hand goes to the first free entry. */
  predicate Fills(a: Moment, t: Table) {
    && a.index < |a.table|
    && exists slot: nat | slot < 4 ::
         && a.table[a.index][slot] == 0 && (forall k | 0 <= k < slot :: a.table[a.index][k] != 0)
         && Overwrites(a, slot, t)
  }

  /** Two bits of the random number of the round. */
  function SeedSlot(seeds: Seeds, step: nat): nat
    requires step < 512
  {
    seeds[step / 32] / Pow2(2 * (step % 32)) % 4
  }

  /** The moments from the given step on: in each but the last the bucket is full, and a kick leads to the next. */
  predicate IsTrace(trace: seq<Moment>, seeds: Seeds, step: nat) {
    && trace != []
    && (|trace| > 1 ==>
          && step < 512 && Blocked(trace[0]) && Swaps(trace[0], trace[1], SeedSlot(seeds, step))
          && IsTrace(trace[1..], seeds, step + 1))
  }

  function Last(trace: seq<Moment>): Moment
    requires trace != []
  {
    trace[|trace| - 1]
  }

  /** The words of a 64-bit fingerprint, what is stored of it, and its first bucket. */
  function LowWord(fingerprint: nat): nat {
    fingerprint % 0x1_0000_0000
  }

  function HighWord(fingerprint: nat): nat {
    fingerprint / 0x1_0000_0000
  }

  function Stored(fingerprint: nat): nat {
    var low, high := LowWord(fingerprint), HighWord(fingerprint) % 0x1_0000_0000;
    if low != 0 then low else if high % 2 == 1 then high else high + 1
  }

  /** The moment when the kicks start: the fingerprint is for the second of its buckets. */
  function StartOf(t: Table, fingerprint: nat): Moment
    requires |t| > 0
  {
    var fp := Stored(fingerprint);
    Moment(t, Xor(HighWord(fingerprint) % |t|, fp % |t|), fp)
  }

  /** Both buckets are full, and so is the bucket of every entry that 512 kicks bring into the hand. */
  ghost predicate Fails(t: Table, fingerprint: nat, seeds: Seeds)
    requires |t| > 0
  {
    && Crowded(t[HighWord(fingerprint) % |t|])
    && exists trace: seq<Moment> ::
         |trace| == 513 && trace[0] == StartOf(t, fingerprint) && IsTrace(trace, seeds, 0) && Blocked(Last(trace))
  }

  // ----- the words

  lemma {:induction false} WordsOf(fingerprint: nat, n: nat)
    requires PowerOfTwo(n)
    ensures Fp32(fingerprint) == Stored(fingerprint)
    ensures HomeBucket(fingerprint, n) == HighWord(fingerprint) % n < n
  {
    MaskIsRemainder(HighWord(fingerprint), n);
  }

  lemma {:induction false} PartnerIs(index: nat, fp: nat, n: nat)
    requires PowerOfTwo(n) && index < n
    ensures Partner(index, fp, n - 1) == Xor(index, fp % n) < n
  {
    MaskIsRemainder(fp, n);
    PartnerBelow(index, fp, n);
  }

  /** Two fingerprints are the same item if and only if the same 32 bits of them are stored and their buckets are the
      same two. */
  lemma {:induction false} SameItemIff(f: nat, g: nat, n: nat)
    requires PowerOfTwo(n)
    ensures var home, other := HighWord(f) % n, HighWord(g) % n;
            ItemOf(f, n) == ItemOf(g, n) <==>
              Stored(f) == Stored(g) && (home == other || home == Xor(other, Stored(g) % n))
  {
    WordsOf(f, n);
    WordsOf(g, n);
    PartnerIs(HighWord(f) % n, Stored(f), n);
    PartnerIs(HighWord(g) % n, Stored(g), n);
    PartnerKeepsItem(Stored(f), HighWord(f) % n, n - 1);
    PartnerKeepsItem(Stored(g), HighWord(g) % n, n - 1);
  }

  // ----- the slots

  lemma {:induction false} ShiftedIs(seed: nat, k: nat)
    ensures Shifted(seed, k) == seed / Pow2(2 * k)
  {
    if k > 0 {
      ShiftedIs(seed, k - 1);
      assert Pow2(2 * k) == 4 * Pow2(2 * k - 2);
      DivideTwice(seed, Pow2(2 * (k - 1)), 4);
    }
  }

  lemma {:induction false} SlotIs(seeds: Seeds, step: nat)
    requires step < 512
    ensures SlotsOf(seeds)[step] == SeedSlot(seeds, step) < 4
  {
    ShiftedIs(seeds[step / 32], step % 32);
  }

  // ----- entries and tables

  lemma {:induction false} FullIsCrowded(b: Bucket)
    ensures Full(b) <==> Crowded(b)
  {
    if Crowded(b) { assert b[0] != 0 && b[1] != 0 && b[2] != 0 && b[3] != 0; }
  }

  lemma {:induction false} OverwritesIs(a: Moment, slot: nat, t: Table)
    requires a.index < |a.table| && slot < 4
    ensures Overwrites(a, slot, t) <==> t == Store(a.table, a.index, slot, a.fp)
  {
    var u := Store(a.table, a.index, slot, a.fp);
    assert Overwrites(a, slot, u);
    if Overwrites(a, slot, t) {
      forall i | 0 <= i < |t| ensures t[i] == u[i] {
        assert forall k | 0 <= k < 4 :: t[i][k] == u[i][k];
      }
    }
  }

  lemma {:induction false} FillsIs(a: Moment)
    requires a.index < |a.table| && !Full(a.table[a.index])
    ensures Fills(a, Placed(a.table, a.index, a.fp).table)
  {
    var slot := FreeSlot(a.table[a.index]);
    OverwritesIs(a, slot, Placed(a.table, a.index, a.fp).table);
  }

  /** A kick of the loops is a swap, and every swap is one. */
  lemma {:induction false} SwapIs(a: Moment, b: Moment, seeds: Seeds, step: nat, o: Outcome)
    requires WellFormed(a.table) && Blocked(a) && step < 512
    requires o == TryAt(a.table, a.index, a.fp, SlotsOf(seeds), step)
    requires Swaps(a, b, SeedSlot(seeds, step))
    ensures WellFormed(b.table) && b.index < |b.table|
    ensures o == TryAt(b.table, b.index, b.fp, SlotsOf(seeds), step + 1)
  {
    FullIsCrowded(a.table[a.index]);
    SlotIs(seeds, step);
    OverwritesIs(a, SeedSlot(seeds, step), b.table);
    PartnerIs(a.index, b.fp, |a.table|);
    var t1, next, evicted := ChainSwaps(a.table, a.index, a.fp, SlotsOf(seeds), step, o);
  }

  lemma {:induction false} SwapExists(a: Moment, seeds: Seeds, step: nat) returns (b: Moment)
    requires Blocked(a) && step < 512
    ensures Swaps(a, b, SeedSlot(seeds, step))
  {
    SlotIs(seeds, step);
    var slot := SeedSlot(seeds, step);
    var fp := a.table[a.index][slot];
    b := Moment(Store(a.table, a.index, slot, a.fp), Xor(a.index, fp % |a.table|), fp);
    OverwritesIs(a, slot, b.table);
  }

  // ----- the loops

  /** What a trace that cannot go on has led to. */
  ghost predicate Ends(last: Moment, full: bool, o: Outcome) {
    && last.index < |last.table| && o.ok == !Crowded(last.table[last.index])
    && (if o.ok then Fills(last, o.table) else full && o.table == last.table)
  }

  lemma {:induction false} LoopsTrace(a: Moment, seeds: Seeds, step: nat, o: Outcome) returns (trace: seq<Moment>)
    requires WellFormed(a.table) && a.index < |a.table| && step <= 512
    requires o == TryAt(a.table, a.index, a.fp, SlotsOf(seeds), step)
    ensures |trace| <= 513 - step && IsTrace(trace, seeds, step) && trace[0] == a
    ensures Ends(Last(trace), |trace| == 513 - step, o)
    decreases 512 - step
  {
    FullIsCrowded(a.table[a.index]);
    if !Full(a.table[a.index]) {
      FillsIs(a);
      trace := [a];
    } else if step == 512 {
      trace := [a];
    } else {
      var b := SwapExists(a, seeds, step);
      SwapIs(a, b, seeds, step, o);
      var rest := LoopsTrace(b, seeds, step + 1, o);
      trace := Onto(a, rest, seeds, step);
    }
  }

  lemma {:induction false} Onto(a: Moment, rest: seq<Moment>, seeds: Seeds, step: nat) returns (trace: seq<Moment>)
    requires step < 512 && Blocked(a) && IsTrace(rest, seeds, step + 1) && Swaps(a, rest[0], SeedSlot(seeds, step))
    ensures |trace| == |rest| + 1 && IsTrace(trace, seeds, step) && trace[0] == a && Last(trace) == Last(rest)
  {
    trace := [a] + rest;
    assert trace[1..] == rest;
  }

  lemma {:induction false} TraceDecides(trace: seq<Moment>, seeds: Seeds, step: nat, o: Outcome)
    requires step <= 512 && |trace| == 513 - step && IsTrace(trace, seeds, step) && Blocked(Last(trace))
    requires WellFormed(trace[0].table) && trace[0].index < |trace[0].table|
    requires o == TryAt(trace[0].table, trace[0].index, trace[0].fp, SlotsOf(seeds), step)
    ensures !o.ok && o.table == Last(trace).table
    decreases 512 - step
  {
    if step == 512 {
      FullIsCrowded(trace[0].table[trace[0].index]);
    } else {
      SwapIs(trace[0], trace[1], seeds, step, o);
      TraceDecides(trace[1..], seeds, step + 1, o);
    }
  }

  // ----- insert

  lemma {:induction false} AtHome(t: Table, fingerprint: nat, seeds: Seeds)
    requires WellFormed(t) && !Crowded(t[HighWord(fingerprint) % |t|])
    ensures var o := Insert(t, fingerprint, seeds);
            o.ok && Fills(Moment(t, HighWord(fingerprint) % |t|, Stored(fingerprint)), o.table)
  {
    WordsOf(fingerprint, |t|);
    FullIsCrowded(t[HighWord(fingerprint) % |t|]);
    FillsIs(Moment(t, HighWord(fingerprint) % |t|, Stored(fingerprint)));
  }

  lemma {:induction false} PastHome(t: Table, fingerprint: nat, seeds: Seeds) returns (o: Outcome)
    requires WellFormed(t) && Crowded(t[HighWord(fingerprint) % |t|])
    ensures var a := StartOf(t, fingerprint);
            && o == Insert(t, fingerprint, seeds) && a.index < |t|
            && o == TryAt(t, a.index, a.fp, SlotsOf(seeds), 0)
  {
    o := Insert(t, fingerprint, seeds);
    WordsOf(fingerprint, |t|);
    PartnerIs(HighWord(fingerprint) % |t|, Stored(fingerprint), |t|);
    FullIsCrowded(t[HighWord(fingerprint) % |t|]);
  }

  /** An insert fills the first free entry of the home bucket; or else the one of the bucket that the kicks, each at
      a full bucket, come to; or else makes all 512 of them and fails. */
  lemma {:induction false} InsertFollows(t: Table, fingerprint: nat, seeds: Seeds) returns (trace: seq<Moment>)
    requires WellFormed(t)
    ensures var o, home := Insert(t, fingerprint, seeds), HighWord(fingerprint) % |t|;
            if !Crowded(t[home]) then o.ok && Fills(Moment(t, home, Stored(fingerprint)), o.table)
            else
              && |trace| <= 513 && IsTrace(trace, seeds, 0) && trace[0] == StartOf(t, fingerprint)
              && Ends(Last(trace), |trace| == 513, o)
  {
    trace := [];
    if Crowded(t[HighWord(fingerprint) % |t|]) {
      var o := PastHome(t, fingerprint, seeds);
      trace := LoopsTrace(StartOf(t, fingerprint), seeds, 0, o);
    } else {
      AtHome(t, fingerprint, seeds);
    }
  }

  /** An insert fails if and only if both buckets are full and 512 kicks meet full buckets only. */
  lemma {:induction false} InsertFailsIff(t: Table, fingerprint: nat, seeds: Seeds)
    requires WellFormed(t)
    ensures !Insert(t, fingerprint, seeds).ok <==> Fails(t, fingerprint, seeds)
  {
    var o := Insert(t, fingerprint, seeds);
    var trace := InsertFollows(t, fingerprint, seeds);
    if Fails(t, fingerprint, seeds) {
      var long: seq<Moment> :| |long| == 513 && long[0] == StartOf(t, fingerprint) && IsTrace(long, seeds, 0)
                               && Blocked(Last(long));
      FailingTrace(t, fingerprint, seeds, long);
    }
  }

  lemma {:induction false} FailingTrace(t: Table, fingerprint: nat, seeds: Seeds, trace: seq<Moment>)
    requires WellFormed(t) && Crowded(t[HighWord(fingerprint) % |t|])
    requires |trace| == 513 && trace[0] == StartOf(t, fingerprint) && IsTrace(trace, seeds, 0) && Blocked(Last(trace))
    ensures !Insert(t, fingerprint, seeds).ok && Insert(t, fingerprint, seeds).table == Last(trace).table
  {
    var o := PastHome(t, fingerprint, seeds);
    TraceDecides(trace, seeds, 0, o);
  }
}
