/** Searching a list of entries, and where its blocks put them. */
module SSTableSearch {
  import opened Options
  import opened Bytes
  import opened Sequences
  import opened SSTableFormat

  ghost predicate Sorted(es: seq<Entry>) {
    forall i, j | 0 <= i < j < |es| :: AtMost(es[i].key, es[j].key)
  }

  /** The first entry whose key is at least `key`, or the end. */
  ghost predicate IsFirstAtLeast(es: seq<Entry>, key: Buffer, n: nat) {
    && n <= |es|
    && (forall i | 0 <= i < n :: Less(es[i].key, key))
    && (n < |es| ==> AtMost(key, es[n].key))
  }

  /** Linear search: the value of the first entry with this key. */
  function Find(es: seq<Entry>, key: Buffer): Option<Buffer> {
    if es == [] then None else if es[0].key == key then Some(es[0].value) else Find(es[1..], key)
  }

  lemma {:induction false} FindFirst(es: seq<Entry>, key: Buffer, n: nat)
    requires n < |es| && es[n].key == key && forall i | 0 <= i < n :: es[i].key != key
    ensures Find(es, key) == Some(es[n].value)
    decreases es
  {
    if n > 0 { FindFirst(es[1..], key, n - 1); }
  }

  lemma {:induction false} FindNone(es: seq<Entry>, key: Buffer)
    requires forall i | 0 <= i < |es| :: es[i].key != key
    ensures Find(es, key) == None
    decreases es
  {
    if es != [] { FindNone(es[1..], key); }
  }

  /** In a sorted list, the first entry at least `key` decides the linear search. */
  lemma {:induction false} FirstAtLeastDecides(es: seq<Entry>, key: Buffer, n: nat)
    requires Sorted(es) && IsFirstAtLeast(es, key, n)
    ensures Find(es, key) == if n < |es| && es[n].key == key then Some(es[n].value) else None
  {
    AtMostTotal(key, key);
    if n < |es| && es[n].key == key {
      FindFirst(es, key, n);
    } else {
      forall i | 0 <= i < |es| ensures es[i].key != key {
        if n <= i && es[i].key == key && i != n { AtMostAntisymmetric(es[n].key, key); }
      }
      FindNone(es, key);
    }
  }

  // ----- positions

  /** The place of entry `j` of block `g` in the whole list. */
  function Position(gs: seq<Group>, g: nat, j: nat): nat
    requires g <= |gs|
  {
    |Flatten(gs[..g])| + j
  }

  lemma {:induction false} PositionEntry(gs: seq<Group>, g: nat, j: nat)
    requires g < |gs| && j < |gs[g]|
    ensures Position(gs, g, j) < |Flatten(gs)| && Flatten(gs)[Position(gs, g, j)] == gs[g][j]
  {
    FlattenPiece(gs, g);
    assert Flatten(gs)[Position(gs, g, j)] == Flatten(gs)[|Flatten(gs[..g])|..|Flatten(gs[..g])| + |gs[g]|][j];
  }

  lemma {:induction false} PositionNext(gs: seq<Group>, g: nat)
    requires g < |gs|
    ensures Position(gs, g, |gs[g]|) == Position(gs, g + 1, 0)
  {
    TakeSnoc(gs, g);
    FlattenSnoc(gs[..g], gs[g]);
  }

  lemma {:induction false} PositionEnd(gs: seq<Group>)
    ensures Position(gs, |gs|, 0) == |Flatten(gs)|
  {
    TakeAll(gs);
  }

  lemma {:induction false} PositionsOrdered(gs: seq<Group>, g: nat, h: nat)
    requires NonEmptyGroups(gs) && g < h < |gs|
    ensures Position(gs, g, |gs[g]| - 1) < Position(gs, h, |gs[h]| - 1)
    decreases h - g
  {
    PositionNext(gs, g);
    if g + 1 < h { PositionsOrdered(gs, g + 1, h); }
  }

  /** The last keys of the blocks of a sorted list are sorted. */
  lemma {:induction false} LastKeysSorted(gs: seq<Group>, g: nat, h: nat)
    requires NonEmptyGroups(gs) && Sorted(Flatten(gs)) && g < h < |gs|
    ensures AtMost(BlockOf(gs, g).last, BlockOf(gs, h).last)
  {
    PositionsOrdered(gs, g, h);
    PositionEntry(gs, g, |gs[g]| - 1);
    PositionEntry(gs, h, |gs[h]| - 1);
  }

  /** If the last keys of all blocks before `g` are less than `key`, so are all entries before block `g`. */
  lemma {:induction false} BeforeBlock(gs: seq<Group>, g: nat, key: Buffer)
    requires NonEmptyGroups(gs) && Sorted(Flatten(gs)) && g <= |gs|
    requires g > 0 ==> Less(BlockOf(gs, g - 1).last, key)
    ensures Position(gs, g, 0) <= |Flatten(gs)|
    ensures forall i | 0 <= i < Position(gs, g, 0) :: Less(Flatten(gs)[i].key, key)
  {
    if g > 0 {
      var es, n := Flatten(gs), |gs[g - 1]| - 1;
      var last := Position(gs, g - 1, n);
      PositionEntry(gs, g - 1, n);
      PositionNext(gs, g - 1);
      forall i | 0 <= i < Position(gs, g, 0) ensures Less(es[i].key, key) {
        if i < last && AtMost(key, es[i].key) { AtMostTransitive(key, es[i].key, es[last].key); }
      }
    }
  }
}
