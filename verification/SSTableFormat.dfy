/** What an SSTable file contains: entries in blocks, a block index, the last key of every block, a footer. */
module SSTableFormat {
  import opened Bytes
  import opened Sequences

  const MAX_BLOCK_SIZE: nat := 16777216
  const INT32_LIMIT: nat := 0x8000_0000

  datatype Entry = Entry(key: Buffer, value: Buffer)

  /** The entries of one block; never empty in a table. */
  type Group = seq<Entry>

  function Encode(e: Entry): (s: Buffer)
    ensures |s| == 8 + |e.key| + |e.value|
  {
    Little(|e.key|, 4) + Little(|e.value|, 4) + e.key + e.value
  }

  function Encodings(es: seq<Entry>): (r: seq<Buffer>)
    ensures |r| == |es| && forall i | 0 <= i < |es| :: r[i] == Encode(es[i])
  {
    seq(|es|, i requires 0 <= i < |es| => Encode(es[i]))
  }

  function EncodeAll(es: seq<Entry>): Buffer {
    Flatten(Encodings(es))
  }

  lemma {:induction false} EncodeSnoc(es: seq<Entry>, e: Entry)
    ensures EncodeAll(es + [e]) == EncodeAll(es) + Encode(e)
  {
    assert Encodings(es + [e]) == Encodings(es) + [Encode(e)];
    FlattenSnoc(Encodings(es), Encode(e));
  }

  lemma {:induction false} EncodeAppend(a: seq<Entry>, b: seq<Entry>)
    ensures EncodeAll(a + b) == EncodeAll(a) + EncodeAll(b)
  {
    assert Encodings(a + b) == Encodings(a) + Encodings(b);
    FlattenAppend(Encodings(a), Encodings(b));
  }

  // ----- how the builder cuts entries into blocks

  function LastGroup(gs: seq<Group>): Group
    requires gs != []
  {
    gs[|gs| - 1]
  }

  /** The builder starts a new block when the entry would push the last one over `blockSize`. */
  function AddEntry(gs: seq<Group>, e: Entry, blockSize: int): (r: seq<Group>)
  {
    if gs == [] || |EncodeAll(LastGroup(gs))| + |Encode(e)| > blockSize then gs + [[e]]
    else gs[..|gs| - 1] + [LastGroup(gs) + [e]]
  }

  function GroupsOf(es: seq<Entry>, blockSize: int): seq<Group> {
    if es == [] then [] else AddEntry(GroupsOf(es[..|es| - 1], blockSize), es[|es| - 1], blockSize)
  }

  ghost predicate NonEmptyGroups(gs: seq<Group>) {
    forall g | 0 <= g < |gs| :: gs[g] != []
  }

  /** A block fits the limit or holds a single entry. */
  ghost predicate WithinBlockSize(gs: seq<Group>, blockSize: int) {
    forall g | 0 <= g < |gs| :: |EncodeAll(gs[g])| <= blockSize || |gs[g]| == 1
  }

  /** A block ends only where the next entry would not have fitted any more. */
  ghost predicate NoneEndsEarly(gs: seq<Group>, blockSize: int) {
    forall g | 0 < g < |gs| :: gs[g] != [] && |EncodeAll(gs[g - 1])| + |Encode(gs[g][0])| > blockSize
  }

  lemma {:induction false} AddEntryAppends(gs: seq<Group>, e: Entry, blockSize: int)
    ensures Flatten(AddEntry(gs, e, blockSize)) == Flatten(gs) + [e]
  {
    if gs == [] || |EncodeAll(LastGroup(gs))| + |Encode(e)| > blockSize {
      FlattenSnoc(gs, [e]);
    } else {
      FlattenSnoc(gs[..|gs| - 1], LastGroup(gs) + [e]);
      Associate(Flatten(gs[..|gs| - 1]), LastGroup(gs), [e]);
    }
  }

  /** The data grows by the encoding of the entry. */
  lemma {:induction false} AddEntryEncodes(gs: seq<Group>, e: Entry, blockSize: int)
    ensures EncodeAll(Flatten(AddEntry(gs, e, blockSize))) == EncodeAll(Flatten(gs)) + Encode(e)
  {
    AddEntryAppends(gs, e, blockSize);
    EncodeSnoc(Flatten(gs), e);
  }

  /** Blocks partition the entries in order; no block is empty; only a single entry may exceed the limit; and no block
      ends before it has to. */
  lemma {:induction false} GroupsPartition(es: seq<Entry>, blockSize: int)
    ensures Flatten(GroupsOf(es, blockSize)) == es
    ensures NonEmptyGroups(GroupsOf(es, blockSize))
    ensures WithinBlockSize(GroupsOf(es, blockSize), blockSize) && NoneEndsEarly(GroupsOf(es, blockSize), blockSize)
    decreases es
  {
    if es != [] {
      var n := |es| - 1;
      var gs := GroupsOf(es[..n], blockSize);
      GroupsPartition(es[..n], blockSize);
      AddEntryAppends(gs, es[n], blockSize);
      AddEntryWithin(gs, es[n], blockSize);
      AddEntryFills(gs, es[n], blockSize);
      TakeSnoc(es, n);
      TakeAll(es);
    }
  }

  lemma {:induction false} AddEntryWithin(gs: seq<Group>, e: Entry, blockSize: int)
    requires NonEmptyGroups(gs) && WithinBlockSize(gs, blockSize)
    ensures NonEmptyGroups(AddEntry(gs, e, blockSize)) && WithinBlockSize(AddEntry(gs, e, blockSize), blockSize)
  {
    var r := AddEntry(gs, e, blockSize);
    forall g | 0 <= g < |r| ensures r[g] != [] && (|EncodeAll(r[g])| <= blockSize || |r[g]| == 1) {
      if g < |gs| && r[g] != gs[g] {
        EncodeSnoc(gs[g], e);
      }
    }
  }

  lemma {:induction false} AddEntryFills(gs: seq<Group>, e: Entry, blockSize: int)
    requires NonEmptyGroups(gs) && NoneEndsEarly(gs, blockSize)
    ensures NoneEndsEarly(AddEntry(gs, e, blockSize), blockSize)
  {
    var r := AddEntry(gs, e, blockSize);
    forall g | 0 < g < |r| ensures r[g] != [] && |EncodeAll(r[g - 1])| + |Encode(r[g][0])| > blockSize {
      if g < |gs| { assert gs[g] != [] && r[g - 1] == gs[g - 1] && r[g][0] == gs[g][0]; }
    }
  }

  // ----- the block index

  datatype Block = Block(offset: nat, size: nat, last: Buffer)

  function BlockOf(gs: seq<Group>, g: nat): Block
    requires g < |gs| && gs[g] != []
  {
    Block(|EncodeAll(Flatten(gs[..g]))|, |EncodeAll(gs[g])|, gs[g][|gs[g]| - 1].key)
  }

  function BlocksOf(gs: seq<Group>): (r: seq<Block>)
    requires NonEmptyGroups(gs)
    ensures |r| == |gs| && forall g | 0 <= g < |gs| :: r[g] == BlockOf(gs, g)
  {
    seq(|gs|, g requires 0 <= g < |gs| => BlockOf(gs, g))
  }

  function IndexRecord(b: Block): (s: Buffer)
    ensures |s| == 16
  {
    Little(b.offset, 8) + Little(b.size, 4) + Little(|b.last|, 4)
  }

  function IndexRecords(bs: seq<Block>): (r: seq<Buffer>)
    ensures |r| == |bs| && forall i | 0 <= i < |bs| :: r[i] == IndexRecord(bs[i])
  {
    seq(|bs|, i requires 0 <= i < |bs| => IndexRecord(bs[i]))
  }

  lemma {:induction false} IndexLength(bs: seq<Block>)
    ensures |Flatten(IndexRecords(bs))| == 16 * |bs|
    decreases bs
  {
    if bs != [] {
      IndexLength(bs[..|bs| - 1]);
      assert IndexRecords(bs)[..|bs| - 1] == IndexRecords(bs[..|bs| - 1]);
    }
  }

  function IndexBytes(bs: seq<Block>): (s: Buffer)
    ensures |s| == 16 * |bs|
  {
    IndexLength(bs);
    Flatten(IndexRecords(bs))
  }

  function LastKeys(bs: seq<Block>): (r: seq<Buffer>)
    ensures |r| == |bs| && forall i | 0 <= i < |bs| :: r[i] == bs[i].last
  {
    seq(|bs|, i requires 0 <= i < |bs| => bs[i].last)
  }

  function KeyBytes(bs: seq<Block>): Buffer {
    Flatten(LastKeys(bs))
  }

  function Footer(bs: seq<Block>): (s: Buffer)
    ensures |s| == 8
  {
    Little(|bs|, 4) + Little(|KeyBytes(bs)|, 4)
  }

  /** The whole file for the given blocks. */
  function FileBytes(gs: seq<Group>): Buffer
    requires NonEmptyGroups(gs)
  {
    var bs := BlocksOf(gs);
    EncodeAll(Flatten(gs)) + IndexBytes(bs) + KeyBytes(bs) + Footer(bs)
  }

  /** The sizes stay within the signed 32 and 64 bits the code computes them in. */
  ghost predicate FitsInts(gs: seq<Group>)
    requires NonEmptyGroups(gs)
  {
    var bs := BlocksOf(gs);
    && (forall g | 0 <= g < |bs| :: bs[g].size < INT32_LIMIT)
    && |EncodeAll(Flatten(gs))| < INT32_LIMIT * INT32_LIMIT
    && |IndexBytes(bs)| + |KeyBytes(bs)| + 8 < INT32_LIMIT
  }

  /** One block ends where the next begins. */
  lemma {:induction false} BlockEnd(gs: seq<Group>, g: nat)
    requires g < |gs| && gs[g] != []
    ensures BlockOf(gs, g).offset + BlockOf(gs, g).size == |EncodeAll(Flatten(gs[..g + 1]))|
  {
    TakeSnoc(gs, g);
    FlattenSnoc(gs[..g], gs[g]);
    EncodeAppend(Flatten(gs[..g]), gs[g]);
  }

  lemma {:induction false} DataEnd(gs: seq<Group>)
    requires NonEmptyGroups(gs) && gs != []
    ensures var last := BlocksOf(gs)[|gs| - 1];
            last.offset + last.size == |EncodeAll(Flatten(gs))|
  {
    BlockEnd(gs, |gs| - 1);
    TakeAll(gs);
  }

  /** A new block starts where the data so far ends. */
  lemma {:induction false} BlocksWithNew(gs: seq<Group>, e: Entry)
    requires NonEmptyGroups(gs)
    ensures NonEmptyGroups(gs + [[e]])
    ensures BlocksOf(gs + [[e]]) == BlocksOf(gs) + [Block(|EncodeAll(Flatten(gs))|, |Encode(e)|, e.key)]
  {
    var r := gs + [[e]];
    TakeOfAppend(gs, [[e]], |gs|);
    EncodeOne(e);
    forall g | 0 <= g < |gs| ensures BlockOf(r, g) == BlockOf(gs, g) {
      TakeOfAppend(gs, [[e]], g);
    }
  }

  lemma {:induction false} EncodeOne(e: Entry)
    ensures EncodeAll([e]) == Encode(e)
  {
    EncodeSnoc([], e);
    assert [] + [e] == [e];
  }

  /** An entry that fits extends the last block. */
  lemma {:induction false} BlocksWithGrown(gs: seq<Group>, e: Entry)
    requires NonEmptyGroups(gs) && gs != []
    ensures NonEmptyGroups(gs[..|gs| - 1] + [LastGroup(gs) + [e]])
    ensures var bs := BlocksOf(gs);
            var last := bs[|bs| - 1];
            BlocksOf(gs[..|gs| - 1] + [LastGroup(gs) + [e]]) ==
              bs[..|bs| - 1] + [last.(size := last.size + |Encode(e)|, last := e.key)]
  {
    var n := |gs| - 1;
    var r := gs[..n] + [gs[n] + [e]];
    GrownBlock(gs, n, e, r);
    forall g | 0 <= g < n ensures BlockOf(r, g) == BlockOf(gs, g) { KeptBlock(gs, n, r, g); }
  }

  lemma {:induction false} KeptBlock(gs: seq<Group>, n: nat, r: seq<Group>, g: nat)
    requires g < n <= |gs| && n <= |r| && gs[..n] == r[..n] && gs[g] != []
    ensures r[g] == gs[g] && BlockOf(r, g) == BlockOf(gs, g)
  {
    assert r[g] == r[..n][g];
    TakeOfTake(gs, n, g);
    TakeOfTake(r, n, g);
  }

  lemma {:induction false} GrownBlock(gs: seq<Group>, n: nat, e: Entry, r: seq<Group>)
    requires n < |gs| && gs[n] != [] && r == gs[..n] + [gs[n] + [e]]
    ensures r[..n] == gs[..n] && r[n] == gs[n] + [e]
    ensures var last := BlockOf(gs, n);
            BlockOf(r, n) == last.(size := last.size + |Encode(e)|, last := e.key)
  {
    EncodeSnoc(gs[n], e);
  }

  /** What `add` does to the list of blocks. */
  function AddBlock(bs: seq<Block>, key: Buffer, entrySize: nat, blockSize: int): seq<Block> {
    if bs == [] then [Block(0, entrySize, key)]
    else
      var last := bs[|bs| - 1];
      if last.size + entrySize > blockSize then bs + [Block(last.offset + last.size, entrySize, key)]
      else bs[..|bs| - 1] + [last.(size := last.size + entrySize, last := key)]
  }

  /** The running block list always describes the groups. */
  lemma {:induction false} AddBlockDescribes(gs: seq<Group>, e: Entry, blockSize: int)
    requires NonEmptyGroups(gs)
    ensures NonEmptyGroups(AddEntry(gs, e, blockSize))
    ensures BlocksOf(AddEntry(gs, e, blockSize)) == AddBlock(BlocksOf(gs), e.key, |Encode(e)|, blockSize)
  {
    if gs == [] || |EncodeAll(LastGroup(gs))| + |Encode(e)| > blockSize {
      BlocksWithNew(gs, e);
      NewBlock(gs, e, blockSize);
    } else {
      BlocksWithGrown(gs, e);
      assert BlocksOf(gs)[|gs| - 1] == BlockOf(gs, |gs| - 1);
    }
  }

  lemma {:induction false} NewBlock(gs: seq<Group>, e: Entry, blockSize: int)
    requires NonEmptyGroups(gs) && (gs == [] || |EncodeAll(LastGroup(gs))| + |Encode(e)| > blockSize)
    ensures AddBlock(BlocksOf(gs), e.key, |Encode(e)|, blockSize)
         == BlocksOf(gs) + [Block(|EncodeAll(Flatten(gs))|, |Encode(e)|, e.key)]
  {
    if gs != [] { DataEnd(gs); }
  }

  // ----- where the reader finds things

  /** The four parts of a file can be cut out of it from the end, as `SSTable::init` does. */
  lemma {:induction false} Layout(d: Buffer, i: Buffer, k: Buffer, f: Buffer)
    ensures var s := d + i + k + f;
            && s[|s| - |f|..|s|] == f
            && s[|s| - (|k| + |f|)..|s| - |f|] == k
            && s[|s| - (|i| + |k| + |f|)..|s| - (|k| + |f|)] == i
            && s[..|s| - (|i| + |k| + |f|)] == d
  {
  }

  lemma {:induction false} FooterFields(bs: seq<Block>)
    requires |bs| < INT32_LIMIT && |KeyBytes(bs)| < INT32_LIMIT
    ensures LoadSigned32(Footer(bs)[..4]) == |bs| && LoadSigned32(Footer(bs)[4..8]) == |KeyBytes(bs)|
  {
    Load32(|bs|);
    Load32(|KeyBytes(bs)|);
    assert Footer(bs)[4..8] == Little(|KeyBytes(bs)|, 4);
  }

  lemma {:induction false} RecordFields(b: Block)
    requires b.offset < 0x8000_0000_0000_0000 && b.size < INT32_LIMIT && |b.last| < INT32_LIMIT
    ensures var r := IndexRecord(b);
            LoadSigned64(r[..8]) == b.offset && LoadSigned32(r[8..12]) == b.size && LoadSigned32(r[12..16]) == |b.last|
  {
    Load64(b.offset);
    Load32(b.size);
    Load32(|b.last|);
    assert IndexRecord(b)[..8] == Little(b.offset, 8);
    assert IndexRecord(b)[8..12] == Little(b.size, 4);
    assert IndexRecord(b)[12..16] == Little(|b.last|, 4);
  }

  /** The i-th record of the index and the i-th key. */
  lemma {:induction false} IndexPiece(bs: seq<Block>, i: nat)
    requires i < |bs|
    ensures IndexBytes(bs)[16 * i..16 * i + 16] == IndexRecord(bs[i])
  {
    var rs := IndexRecords(bs);
    assert rs[..i] == IndexRecords(bs[..i]);
    IndexLength(bs[..i]);
    FlattenPiece(rs, i);
  }

  lemma {:induction false} EntryFields(e: Entry, rest: Buffer)
    requires |e.key| < INT32_LIMIT && |e.value| < INT32_LIMIT
    ensures var s := Encode(e) + rest;
            && LoadSigned32(s[..4]) == |e.key| && LoadSigned32(s[4..8]) == |e.value|
            && s[8..8 + |e.key|] == e.key && s[8 + |e.key|..8 + |e.key| + |e.value|] == e.value
  {
    Load32(|e.key|);
    Load32(|e.value|);
    var s := Encode(e) + rest;
    assert s[..4] == Little(|e.key|, 4);
    assert s[4..8] == Little(|e.value|, 4);
  }

  /** The data of a block within the data of all. */
  lemma {:induction false} BlockPiece(gs: seq<Group>, g: nat)
    requires g < |gs| && gs[g] != []
    ensures var b := BlockOf(gs, g);
            && b.offset + b.size <= |EncodeAll(Flatten(gs))|
            && EncodeAll(Flatten(gs))[b.offset..b.offset + b.size] == EncodeAll(gs[g])
  {
    FlattenPiece(gs, g);
    var a, c := Flatten(gs[..g]), Flatten(gs[g + 1..]);
    EncodeAppend(a + gs[g], c);
    EncodeAppend(a, gs[g]);
  }

  /** The i-th entry within the data of a block. */
  lemma {:induction false} EntryPiece(es: seq<Entry>, i: nat)
    requires i < |es|
    ensures var at := |EncodeAll(es[..i])|;
            && at + |Encode(es[i])| == |EncodeAll(es[..i + 1])| <= |EncodeAll(es)|
            && EncodeAll(es) == EncodeAll(es[..i]) + (Encode(es[i]) + EncodeAll(es[i + 1..]))
  {
    SplitAt(es, i + 1);
    TakeSnoc(es, i);
    EncodeAppend(es[..i + 1], es[i + 1..]);
    EncodeSnoc(es[..i], es[i]);
    Associate(EncodeAll(es[..i]), Encode(es[i]), EncodeAll(es[i + 1..]));
  }
}
