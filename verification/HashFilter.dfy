/** The cuckoo filter of `util/hash-filter.cc`: its table as a value, and what a kick chain does to it. */
module HashFilter {
  import opened Bits
  import opened Sequences

  type Bucket = b: seq<nat> | |b| == 4 witness [0, 0, 0, 0]

  /** All buckets; the number of buckets is a power of two. An entry 0 is free. */
  type Table = seq<Bucket>

  predicate WellFormed(t: Table) {
    PowerOfTwo(|t|)
  }

  /** The other bucket a fingerprint may live in. */
  function Partner(index: nat, fp: nat, mask: nat): nat {
    Xor(index, And(fp, mask))
  }

  /** What the filter remembers of an inserted value: its fingerprint and its two buckets, unordered. */
  datatype Item = Item(fp: nat, low: nat, high: nat)

  function ItemAt(fp: nat, index: nat, mask: nat): Item {
    var other := Partner(index, fp, mask);
    if index <= other then Item(fp, index, other) else Item(fp, other, index)
  }

  lemma {:induction false} PartnerBelow(index: nat, fp: nat, n: nat)
    requires PowerOfTwo(n) && index < n
    ensures Partner(index, fp, n - 1) < n
  {
    AndAtMost(fp, n - 1);
    XorBelow(index, And(fp, n - 1), n);
  }

  /** Moving a fingerprint to its other bucket does not change the item. */
  lemma {:induction false} PartnerKeepsItem(fp: nat, index: nat, mask: nat)
    ensures Partner(Partner(index, fp, mask), fp, mask) == index
    ensures ItemAt(fp, Partner(index, fp, mask), mask) == ItemAt(fp, index, mask)
  {
    XorCancels(index, And(fp, mask));
  }

  // ----- the multiset of stored items

  function One(fp: nat, index: nat, mask: nat): multiset<Item> {
    if fp == 0 then multiset{} else multiset{ItemAt(fp, index, mask)}
  }

  function EntryItems(entries: seq<nat>, index: nat, mask: nat): multiset<Item> {
    if entries == [] then multiset{}
    else One(entries[0], index, mask) + EntryItems(entries[1..], index, mask)
  }

  function TableItems(t: Table, mask: nat): multiset<Item> {
    if t == [] then multiset{}
    else TableItems(t[..|t| - 1], mask) + EntryItems(t[|t| - 1], |t| - 1, mask)
  }

  /** The items stored in a table. */
  function Items(t: Table): multiset<Item>
    requires |t| > 0
  {
    TableItems(t, |t| - 1)
  }

  lemma {:induction false} Frame(c: multiset<Item>, a': multiset<Item>, x: multiset<Item>,
                                 a: multiset<Item>, y: multiset<Item>)
    requires a' + x == a + y
    ensures (c + a') + x == (c + a) + y && (a' + c) + x == (a + c) + y
  {
    assert (c + a') + x == c + (a' + x);
    assert (c + a) + y == c + (a + y);
    assert (a' + c) + x == c + (a' + x);
    assert (a + c) + y == c + (a + y);
  }

  lemma {:induction false} Cancel(t': multiset<Item>, e: multiset<Item>, x: multiset<Item>,
                                  t: multiset<Item>, e': multiset<Item>, y: multiset<Item>)
    requires t' + e == t + e' && e' + x == e + y
    ensures t' + x == t + y
  {
    forall i: Item ensures (t' + x)[i] == (t + y)[i] {
      assert (t' + e)[i] == (t + e')[i] && (e' + x)[i] == (e + y)[i];
    }
  }

  lemma {:induction false} EntryUpdate(entries: seq<nat>, slot: nat, fp: nat, index: nat, mask: nat)
    requires slot < |entries|
    ensures EntryItems(entries[slot := fp], index, mask) + One(entries[slot], index, mask)
         == EntryItems(entries, index, mask) + One(fp, index, mask)
    decreases entries
  {
    var e := entries[slot := fp];
    if slot > 0 {
      DropOfUpdate(entries, slot, fp);
      EntryUpdate(entries[1..], slot - 1, fp, index, mask);
      assert EntryItems(e, index, mask) == One(entries[0], index, mask) + EntryItems(e[1..], index, mask);
      Frame(One(entries[0], index, mask), EntryItems(e[1..], index, mask), One(entries[slot], index, mask),
            EntryItems(entries[1..], index, mask), One(fp, index, mask));
    } else {
      assert e[1..] == entries[1..];
    }
  }

  lemma {:induction false} TableUpdate(t: Table, index: nat, b: Bucket, mask: nat)
    requires index < |t|
    ensures TableItems(t[index := b], mask) + EntryItems(t[index], index, mask)
         == TableItems(t, mask) + EntryItems(b, index, mask)
    decreases t
  {
    var u := t[index := b];
    var n := |t| - 1;
    if index < n {
      TakeOfUpdate(t, index, b, n);
      TableUpdate(t[..n], index, b, mask);
      Frame(EntryItems(t[n], n, mask), TableItems(u[..n], mask), EntryItems(t[index], index, mask),
            TableItems(t[..n], mask), EntryItems(b, index, mask));
    } else {
      assert u[..n] == t[..n];
    }
  }

  function Store(t: Table, index: nat, slot: nat, fp: nat): (r: Table)
    requires index < |t| && slot < 4
    ensures |r| == |t|
  {
    t[index := t[index][slot := fp]]
  }

  /** Overwriting one entry exchanges one item for another. */
  lemma {:induction false} StoreItems(t: Table, index: nat, slot: nat, fp: nat)
    requires index < |t| && slot < 4
    ensures Items(Store(t, index, slot, fp)) + One(t[index][slot], index, |t| - 1)
         == Items(t) + One(fp, index, |t| - 1)
  {
    EntryUpdate(t[index], slot, fp, index, |t| - 1);
    TableUpdate(t, index, t[index][slot := fp], |t| - 1);
    Cancel(Items(Store(t, index, slot, fp)), EntryItems(t[index], index, |t| - 1), One(t[index][slot], index, |t| - 1),
           Items(t), EntryItems(t[index][slot := fp], index, |t| - 1), One(fp, index, |t| - 1));
  }

  // ----- insert

  /** The first free slot of a bucket, or 4. */
  function FreeSlot(b: Bucket): (k: nat)
    ensures k <= 4 && (k < 4 ==> b[k] == 0) && forall j | 0 <= j < k :: b[j] != 0
  {
    if b[0] == 0 then 0 else if b[1] == 0 then 1 else if b[2] == 0 then 2 else if b[3] == 0 then 3 else 4
  }

  predicate Full(b: Bucket) {
    FreeSlot(b) == 4
  }

  const ROUNDS: nat := 16
  const KICKS: nat := 32

  /** Sixteen 64-bit random numbers, one per round. */
  type Seeds = s: seq<nat> | |s| == ROUNDS witness seq(16, _ => 0)

  /** `seed >> 2 * k`. */
  function Shifted(seed: nat, k: nat): nat {
    if k == 0 then seed else Shifted(seed, k - 1) / 4
  }

  /** The slot that the given step of the chain evicts from: each round takes its slots from one random
      number, two bits at a time. */
  function Slot(seeds: Seeds, step: nat): (slot: nat)
    requires step < ROUNDS * KICKS
    ensures slot < 4
  {
    Shifted(seeds[step / KICKS], step % KICKS) % 4
  }

  /** One slot for every step. */
  type Slots = s: seq<nat> | |s| == ROUNDS * KICKS && forall k | 0 <= k < |s| :: s[k] < 4
    witness seq(ROUNDS * KICKS, _ => 0)

  function SlotsOf(seeds: Seeds): (slots: Slots)
    ensures forall step | 0 <= step < ROUNDS * KICKS :: slots[step] == Slot(seeds, step)
  {
    seq(ROUNDS * KICKS, step requires 0 <= step < ROUNDS * KICKS => Slot(seeds, step))
  }

  lemma {:induction false} SlotInRound(seeds: Seeds, round: nat, kick: nat)
    requires round < ROUNDS && kick < KICKS
    ensures SlotsOf(seeds)[KICKS * round + kick] == Shifted(seeds[round], kick) % 4
  {
    assert (KICKS * round + kick) / KICKS == round && (KICKS * round + kick) % KICKS == kick;
  }

  /** The result of an insert; on failure `fp` is the fingerprint left over and `index` the bucket it was tried at. */
  datatype Outcome = Outcome(table: Table, ok: bool, fp: nat, index: nat)

  /** `fp` in the first free entry of a bucket. */
  function Placed(t: Table, index: nat, fp: nat): Outcome
    requires index < |t| && !Full(t[index])
  {
    Outcome(Store(t, index, FreeSlot(t[index]), fp), true, fp, index)
  }

  /** The kick loops: evict an entry of a full bucket, try its other bucket, repeat. */
  function Chain(t: Table, index: nat, fp: nat, slots: Slots, step: nat): Outcome
    requires WellFormed(t) && index < |t| && step <= ROUNDS * KICKS
    decreases ROUNDS * KICKS - step, 1
  {
    if step == ROUNDS * KICKS then Outcome(t, false, fp, index) else Swap(t, index, fp, slots, step)
  }

  /** One kick: `fp` takes the place of an entry, which goes to its other bucket. */
  function Swap(t: Table, index: nat, fp: nat, slots: Slots, step: nat): Outcome
    requires WellFormed(t) && index < |t| && step < ROUNDS * KICKS
    decreases ROUNDS * KICKS - step, 0
  {
    var evicted := t[index][slots[step]];
    PartnerBelow(index, evicted, |t|);
    TryAt(Store(t, index, slots[step], fp), Partner(index, evicted, |t| - 1), evicted, slots, step + 1)
  }

  function TryAt(t: Table, index: nat, fp: nat, slots: Slots, step: nat): Outcome
    requires WellFormed(t) && index < |t| && step <= ROUNDS * KICKS
    decreases ROUNDS * KICKS - step, 2
  {
    if Full(t[index]) then Chain(t, index, fp, slots, step) else Placed(t, index, fp)
  }

  /** The fingerprint kept for a 64-bit hash; never 0. */
  function Fp32(fingerprint: nat): (fp: nat)
    ensures fp > 0
  {
    var low := fingerprint % 0x1_0000_0000;
    if low != 0 then low else SetLowBit(fingerprint / 0x1_0000_0000 % 0x1_0000_0000)
  }

  function HomeBucket(fingerprint: nat, n: nat): (index: nat)
    requires n > 0
    ensures index < n
  {
    AndAtMost(fingerprint / 0x1_0000_0000, n - 1);
    And(fingerprint / 0x1_0000_0000, n - 1)
  }

  function ItemOf(fingerprint: nat, n: nat): Item
    requires n > 0
  {
    ItemAt(Fp32(fingerprint), HomeBucket(fingerprint, n), n - 1)
  }

  function Insert(t: Table, fingerprint: nat, seeds: Seeds): Outcome
    requires WellFormed(t)
  {
    PlaceFrom(t, HomeBucket(fingerprint, |t|), Fp32(fingerprint), SlotsOf(seeds))
  }

  /** Try the home bucket, then its partner, then kick entries out. */
  function PlaceFrom(t: Table, index: nat, fp: nat, slots: Slots): Outcome
    requires WellFormed(t) && index < |t|
  {
    PartnerBelow(index, fp, |t|);
    if !Full(t[index]) then Placed(t, index, fp)
    else TryAt(t, Partner(index, fp, |t| - 1), fp, slots, 0)
  }

  /** The item that a failed insert drops. */
  function Leftover(o: Outcome): multiset<Item>
    requires |o.table| > 0
  {
    if o.ok then multiset{} else multiset{ItemAt(o.fp, o.index, |o.table| - 1)}
  }

  /** All items: those stored and the one carried. */
  ghost predicate Carrying(t: Table, index: nat, fp: nat, all: multiset<Item>) {
    index < |t| && fp > 0 && all == Items(t) + multiset{ItemAt(fp, index, |t| - 1)}
  }

  /** All items: those stored and, on failure, the one left over. */
  ghost predicate Conserves(o: Outcome, n: nat, all: multiset<Item>) {
    |o.table| == n > o.index && o.fp > 0 && all == Items(o.table) + Leftover(o)
  }

  lemma {:induction false} AddItems(t: Table, index: nat, fp: nat)
    requires WellFormed(t) && index < |t| && !Full(t[index]) && fp > 0
    ensures Items(Store(t, index, FreeSlot(t[index]), fp)) == Items(t) + multiset{ItemAt(fp, index, |t| - 1)}
  {
    StoreItems(t, index, FreeSlot(t[index]), fp);
  }

  lemma {:induction false} FullSlot(b: Bucket, slot: nat)
    requires Full(b) && slot < 4
    ensures b[slot] != 0
  {
  }

  /** One kick changes what is carried, not what there is. */
  lemma {:induction false} KickConserves(t: Table, index: nat, fp: nat, slot: nat, all: multiset<Item>)
    requires WellFormed(t) && Carrying(t, index, fp, all) && slot < 4 && t[index][slot] != 0
    ensures var evicted := t[index][slot];
            Carrying(Store(t, index, slot, fp), Partner(index, evicted, |t| - 1), evicted, all)
  {
    var evicted := t[index][slot];
    StoreItems(t, index, slot, fp);
    PartnerBelow(index, evicted, |t|);
    PartnerKeepsItem(evicted, index, |t| - 1);
  }

  /** The chain, one kick at a time: the table it leaves, and the entry carried to its other bucket. */
  lemma {:induction false} ChainSwaps(t: Table, index: nat, fp: nat, slots: Slots, step: nat, o: Outcome)
    returns (t1: Table, next: nat, evicted: nat)
    requires WellFormed(t) && index < |t| && step < ROUNDS * KICKS && o == Chain(t, index, fp, slots, step)
    ensures evicted == t[index][slots[step]] && t1 == Store(t, index, slots[step], fp)
    ensures next == Partner(index, evicted, |t| - 1) < |t| && WellFormed(t1)
    ensures o == TryAt(t1, next, evicted, slots, step + 1)
  {
    evicted, t1 := t[index][slots[step]], Store(t, index, slots[step], fp);
    PartnerBelow(index, evicted, |t|);
    next := Partner(index, evicted, |t| - 1);
    assert o == Swap(t, index, fp, slots, step);
  }

  lemma {:induction false} PlacedConserves(t: Table, index: nat, fp: nat, o: Outcome, all: multiset<Item>)
    requires WellFormed(t) && Carrying(t, index, fp, all) && !Full(t[index]) && o == Placed(t, index, fp)
    ensures Conserves(o, |t|, all)
  {
    AddItems(t, index, fp);
  }

  lemma {:induction false} ChainKick(t: Table, index: nat, fp: nat, slots: Slots, step: nat, o: Outcome,
                                     all: multiset<Item>)
    returns (t1: Table, next: nat, evicted: nat)
    requires WellFormed(t) && Carrying(t, index, fp, all) && Full(t[index]) && step < ROUNDS * KICKS
    requires o == Chain(t, index, fp, slots, step)
    ensures |t1| == |t| && WellFormed(t1) && Carrying(t1, next, evicted, all)
    ensures o == TryAt(t1, next, evicted, slots, step + 1)
  {
    t1, next, evicted := ChainSwaps(t, index, fp, slots, step, o);
    FullSlot(t[index], slots[step]);
    KickConserves(t, index, fp, slots[step], all);
  }

  /** A kick chain neither forges nor duplicates items. */
  lemma {:induction false} ChainConserves(t: Table, index: nat, fp: nat, slots: Slots, step: nat, o: Outcome,
                                          all: multiset<Item>)
    requires WellFormed(t) && Carrying(t, index, fp, all) && Full(t[index]) && step <= ROUNDS * KICKS
    requires o == Chain(t, index, fp, slots, step)
    ensures Conserves(o, |t|, all)
    decreases ROUNDS * KICKS - step, 1
  {
    if step < ROUNDS * KICKS {
      var t1, next, evicted := ChainKick(t, index, fp, slots, step, o, all);
      TryConserves(t1, next, evicted, slots, step + 1, o, all);
    }
  }

  lemma {:induction false} TryConserves(t: Table, index: nat, fp: nat, slots: Slots, step: nat, o: Outcome,
                                        all: multiset<Item>)
    requires WellFormed(t) && Carrying(t, index, fp, all) && step <= ROUNDS * KICKS
    requires o == TryAt(t, index, fp, slots, step)
    ensures Conserves(o, |t|, all)
    decreases ROUNDS * KICKS - step, 2
  {
    if Full(t[index]) {
      ChainConserves(t, index, fp, slots, step, o, all);
    } else {
      PlacedConserves(t, index, fp, o, all);
    }
  }

  lemma {:induction false} PlaceConserves(t: Table, index: nat, fp: nat, slots: Slots, o: Outcome,
                                          all: multiset<Item>)
    requires WellFormed(t) && Carrying(t, index, fp, all) && o == PlaceFrom(t, index, fp, slots)
    ensures Conserves(o, |t|, all)
  {
    if Full(t[index]) {
      PartnerBelow(index, fp, |t|);
      PartnerKeepsItem(fp, index, |t| - 1);
      TryConserves(t, Partner(index, fp, |t| - 1), fp, slots, 0, o, all);
    } else {
      PlacedConserves(t, index, fp, o, all);
    }
  }

  lemma {:induction false} InsertConserves(t: Table, fingerprint: nat, seeds: Seeds)
    requires WellFormed(t)
    ensures Conserves(Insert(t, fingerprint, seeds), |t|, Items(t) + multiset{ItemOf(fingerprint, |t|)})
  {
    PlaceConserves(t, HomeBucket(fingerprint, |t|), Fp32(fingerprint), SlotsOf(seeds), Insert(t, fingerprint, seeds),
                   Items(t) + multiset{ItemOf(fingerprint, |t|)});
  }

  // ----- lookup

  /** `HashFilter32::test`. */
  predicate Test(t: Table, fingerprint: nat)
    requires WellFormed(t)
  {
    var fp, index := Fp32(fingerprint), HomeBucket(fingerprint, |t|);
    PartnerBelow(index, fp, |t|);
    fp in t[index] || fp in t[Partner(index, fp, |t| - 1)]
  }

  lemma {:induction false} EntryMember(entries: seq<nat>, index: nat, mask: nat, item: Item)
    requires item.fp > 0
    ensures item in EntryItems(entries, index, mask) <==> item.fp in entries && ItemAt(item.fp, index, mask) == item
    decreases entries
  {
    if entries != [] { EntryMember(entries[1..], index, mask, item); }
  }

  lemma {:induction false} BucketInTable(t: Table, mask: nat, i: nat)
    requires i < |t|
    ensures EntryItems(t[i], i, mask) <= TableItems(t, mask)
    decreases t
  {
    if i < |t| - 1 {
      BucketInTable(t[..|t| - 1], mask, i);
    }
  }

  lemma {:induction false} FindBucket(t: Table, mask: nat, item: Item) returns (i: nat)
    requires item in TableItems(t, mask)
    ensures i < |t| && item in EntryItems(t[i], i, mask)
    decreases t
  {
    i := |t| - 1;
    if item !in EntryItems(t[i], i, mask) {
      i := FindBucket(t[..|t| - 1], mask, item);
    }
  }

  /** A lookup answers yes exactly when the item is stored. */
  lemma {:induction false} TestIffStored(t: Table, fingerprint: nat)
    requires WellFormed(t)
    ensures Test(t, fingerprint) <==> ItemOf(fingerprint, |t|) in Items(t)
  {
    var fp, index, mask := Fp32(fingerprint), HomeBucket(fingerprint, |t|), |t| - 1;
    var item := ItemOf(fingerprint, |t|);
    var other := Partner(index, fp, mask);
    PartnerBelow(index, fp, |t|);
    PartnerKeepsItem(fp, index, mask);
    if Test(t, fingerprint) {
      var i := if fp in t[index] then index else other;
      EntryMember(t[i], i, mask, item);
      BucketInTable(t, mask, i);
    }
    if item in Items(t) {
      var i := FindBucket(t, mask, item);
      EntryMember(t[i], i, mask, item);
    }
  }

  // ----- occupancy

  function Used(entries: seq<nat>): nat {
    if entries == [] then 0 else (if entries[0] == 0 then 0 else 1) + Used(entries[1..])
  }

  /** The number of entries in use. */
  function Occupied(t: Table): nat {
    if t == [] then 0 else Occupied(t[..|t| - 1]) + Used(t[|t| - 1])
  }

  lemma {:induction false} UsedIsCount(entries: seq<nat>, index: nat, mask: nat)
    ensures |EntryItems(entries, index, mask)| == Used(entries)
    decreases entries
  {
    if entries != [] { UsedIsCount(entries[1..], index, mask); }
  }

  lemma {:induction false} OccupiedIsCount(t: Table, mask: nat)
    ensures |TableItems(t, mask)| == Occupied(t)
    decreases t
  {
    if t != [] {
      OccupiedIsCount(t[..|t| - 1], mask);
      UsedIsCount(t[|t| - 1], |t| - 1, mask);
    }
  }

  /** A successful insert uses one more entry; a failed one, after all its kicks, uses as many as before. */
  lemma {:induction false} InsertOccupies(t: Table, fingerprint: nat, seeds: Seeds)
    requires WellFormed(t)
    ensures var o := Insert(t, fingerprint, seeds);
            |o.table| == |t| && Occupied(o.table) == Occupied(t) + if o.ok then 1 else 0
  {
    InsertConserves(t, fingerprint, seeds);
    OutcomeOccupies(t, ItemOf(fingerprint, |t|), Insert(t, fingerprint, seeds));
  }

  lemma {:induction false} OutcomeOccupies(t: Table, item: Item, o: Outcome)
    requires |t| > 0 && Conserves(o, |t|, Items(t) + multiset{item})
    ensures Occupied(o.table) == Occupied(t) + if o.ok then 1 else 0
  {
    OccupiedIsCount(t, |t| - 1);
    OccupiedIsCount(o.table, |t| - 1);
    assert |Items(o.table) + Leftover(o)| == |Items(t) + multiset{item}|;
  }

  // ----- runs

  datatype Call = Call(fingerprint: nat, seeds: Seeds)

  function Run(t: Table, calls: seq<Call>): Table
    requires WellFormed(t)
    decreases |calls|
  {
    if calls == [] then t
    else
      InsertConserves(t, calls[0].fingerprint, calls[0].seeds);
      Run(Insert(t, calls[0].fingerprint, calls[0].seeds).table, calls[1..])
  }

  /** What each call of a run returned. */
  function Answers(t: Table, calls: seq<Call>): seq<bool>
    requires WellFormed(t)
    decreases |calls|
  {
    if calls == [] then []
    else
      InsertConserves(t, calls[0].fingerprint, calls[0].seeds);
      var o := Insert(t, calls[0].fingerprint, calls[0].seeds);
      [o.ok] + Answers(o.table, calls[1..])
  }

  /** The items dropped during a run. */
  function Lost(t: Table, calls: seq<Call>): multiset<Item>
    requires WellFormed(t)
    decreases |calls|
  {
    if calls == [] then multiset{}
    else
      InsertConserves(t, calls[0].fingerprint, calls[0].seeds);
      var o := Insert(t, calls[0].fingerprint, calls[0].seeds);
      Leftover(o) + Lost(o.table, calls[1..])
  }

  function Inserted(calls: seq<Call>, n: nat): multiset<Item>
    requires n > 0
  {
    if calls == [] then multiset{} else multiset{ItemOf(calls[0].fingerprint, n)} + Inserted(calls[1..], n)
  }

  function Failures(answers: seq<bool>): nat {
    if answers == [] then 0 else (if answers[0] then 0 else 1) + Failures(answers[1..])
  }

  /** Over a whole run, stored plus lost is what was there plus what was inserted, and exactly one item
      is lost per call that returned false. */
  lemma {:induction false} RunConserves(t: Table, calls: seq<Call>)
    requires WellFormed(t)
    ensures |Run(t, calls)| == |t| && WellFormed(Run(t, calls))
    ensures Items(Run(t, calls)) + Lost(t, calls) == Items(t) + Inserted(calls, |t|)
    ensures |Lost(t, calls)| == Failures(Answers(t, calls))
    decreases |calls|
  {
    if calls != [] {
      var c := calls[0];
      InsertConserves(t, c.fingerprint, c.seeds);
      var o := Insert(t, c.fingerprint, c.seeds);
      RunConserves(o.table, calls[1..]);
      var r := Answers(o.table, calls[1..]);
      assert ([o.ok] + r)[1..] == r;
      Chained(Items(Run(t, calls)), Leftover(o), Lost(o.table, calls[1..]), Items(o.table),
              Items(t), multiset{ItemOf(c.fingerprint, |t|)}, Inserted(calls[1..], |t|));
    }
  }

  lemma {:induction false} Chained(r: multiset<Item>, x: multiset<Item>, lost: multiset<Item>, m: multiset<Item>,
                                   a: multiset<Item>, y: multiset<Item>, ins: multiset<Item>)
    requires r + lost == m + ins && m + x == a + y
    ensures r + (x + lost) == a + (y + ins)
  {
    forall i: Item ensures (r + (x + lost))[i] == (a + (y + ins))[i] {
      assert (r + lost)[i] == (m + ins)[i] && (m + x)[i] == (a + y)[i];
    }
  }

  /** The table after `clear`. */
  function Cleared(n: nat): Table {
    seq(n, _ => [0, 0, 0, 0])
  }

  lemma {:induction false} ClearedIsEmpty(n: nat, mask: nat)
    ensures TableItems(Cleared(n), mask) == multiset{}
    ensures Occupied(Cleared(n)) == 0
  {
    if n > 0 {
      ClearedIsEmpty(n - 1, mask);
      assert Cleared(n)[..n - 1] == Cleared(n - 1);
      EntriesAllFree(n - 1, mask);
    }
  }

  lemma {:induction false} EntriesAllFree(index: nat, mask: nat)
    ensures EntryItems([0, 0, 0, 0], index, mask) == multiset{} && Used([0, 0, 0, 0]) == 0
  {
    var b: seq<nat> := [0, 0, 0, 0];
    assert b[1..] == [0, 0, 0] && b[2..] == [0, 0] && b[3..] == [0];
    UsedIsCount(b, index, mask);
    assert Used([0]) == 0 && Used([0, 0]) == 0 && Used([0, 0, 0]) == 0 by {
      assert b[1..][1..] == [0, 0] && b[2..][1..] == [0];
    }
  }

  /** Since the last `clear`, a lookup answers yes exactly when more copies of its item were inserted than lost. */
  lemma {:induction false} TestAfterRun(n: nat, calls: seq<Call>, fingerprint: nat)
    requires PowerOfTwo(n)
    ensures WellFormed(Run(Cleared(n), calls))
    ensures var item := ItemOf(fingerprint, n);
            Test(Run(Cleared(n), calls), fingerprint) <==> Inserted(calls, n)[item] > Lost(Cleared(n), calls)[item]
  {
    var item := ItemOf(fingerprint, n);
    var t := Run(Cleared(n), calls);
    RunConserves(Cleared(n), calls);
    ClearedIsEmpty(n, n - 1);
    TestIffStored(t, fingerprint);
    assert (Items(t) + Lost(Cleared(n), calls))[item] == Inserted(calls, n)[item];
  }

  /** No false negatives while every insert succeeds. */
  lemma {:induction false} NoFalseNegatives(n: nat, calls: seq<Call>, k: nat)
    requires PowerOfTwo(n) && k < |calls|
    requires false !in Answers(Cleared(n), calls)
    ensures WellFormed(Run(Cleared(n), calls)) && Test(Run(Cleared(n), calls), calls[k].fingerprint)
  {
    RunConserves(Cleared(n), calls);
    NoFailures(Answers(Cleared(n), calls));
    TestAfterRun(n, calls, calls[k].fingerprint);
    InsertedMember(calls, n, k);
  }

  lemma {:induction false} NoFailures(answers: seq<bool>)
    requires false !in answers
    ensures Failures(answers) == 0
  {
    if answers != [] { NoFailures(answers[1..]); }
  }

  lemma {:induction false} InsertedMember(calls: seq<Call>, n: nat, k: nat)
    requires n > 0 && k < |calls|
    ensures ItemOf(calls[k].fingerprint, n) in Inserted(calls, n)
  {
    if k > 0 { InsertedMember(calls[1..], n, k - 1); }
  }
}
