/** Every byte of an SSTable file by its position. */
module SSTableBytes {
  import opened Bytes
  import opened Sequences
  import opened SSTableFormat

  /** The size of encoded entries: two sizes of four bytes each, the key and the value. */
  function DataSize(es: seq<Entry>): nat {
    if es == [] then 0 else DataSize(es[..|es| - 1]) + (8 + |es[|es| - 1].key| + |es[|es| - 1].value|)
  }

  function KeysSize(ks: seq<Buffer>): nat {
    if ks == [] then 0 else KeysSize(ks[..|ks| - 1]) + |ks[|ks| - 1]|
  }

  lemma {:induction false} DataSizeIs(es: seq<Entry>)
    ensures |EncodeAll(es)| == DataSize(es)
  {
    if es != [] {
      var n := |es| - 1;
      DataSizeIs(es[..n]);
      EncodeSnoc(es[..n], es[n]);
      TakeSnoc(es, n);
      TakeAll(es);
    }
  }

  lemma {:induction false} KeysSizeIs(ks: seq<Buffer>)
    ensures |Flatten(ks)| == KeysSize(ks)
  {
    if ks != [] { KeysSizeIs(ks[..|ks| - 1]); }
  }

  // ----- records

  lemma {:induction false} DigitsAt(n: nat, width: nat, before: Buffer, after: Buffer, s: Buffer)
    requires s == before + Little(n, width) + after
    ensures forall i | 0 <= i < width :: s[|before| + i] == Digit(n, i)
  {
    forall i | 0 <= i < width ensures s[|before| + i] == Digit(n, i) {
      LittleAt(n, width, i);
      assert s[|before| + i] == (before + Little(n, width))[|before| + i];
    }
  }

  lemma {:induction false} TwoParts(front: Buffer, x: Buffer, y: Buffer)
    ensures (front + x + y)[|front|..|front| + |x|] == x && (front + x + y)[|front| + |x|..] == y
  {
  }

  /** An entry: the sizes of key and value, least significant byte first, then key and value. */
  lemma {:induction false} EntryBytes(e: Entry)
    ensures var s := Encode(e);
            && |s| == 8 + |e.key| + |e.value|
            && (forall i | 0 <= i < 4 :: s[i] == Digit(|e.key|, i))
            && (forall i | 0 <= i < 4 :: s[4 + i] == Digit(|e.value|, i))
            && s[8..8 + |e.key|] == e.key && s[8 + |e.key|..] == e.value
  {
    var s := Encode(e);
    var k, v := Little(|e.key|, 4), Little(|e.value|, 4);
    assert s == [] + k + (v + e.key + e.value);
    DigitsAt(|e.key|, 4, [], v + e.key + e.value, s);
    assert s == k + v + (e.key + e.value);
    DigitsAt(|e.value|, 4, k, e.key + e.value, s);
    TwoParts(k + v, e.key, e.value);
  }

  /** An index record: offset and size of the block and the size of its last key. */
  lemma {:induction false} RecordBytes(b: Block)
    ensures var s := IndexRecord(b);
            && (forall i | 0 <= i < 8 :: s[i] == Digit(b.offset, i))
            && (forall i | 0 <= i < 4 :: s[8 + i] == Digit(b.size, i))
            && (forall i | 0 <= i < 4 :: s[12 + i] == Digit(|b.last|, i))
  {
    var s := IndexRecord(b);
    var o, z, k := Little(b.offset, 8), Little(b.size, 4), Little(|b.last|, 4);
    assert s == [] + o + (z + k);
    DigitsAt(b.offset, 8, [], z + k, s);
    assert s == o + z + k;
    DigitsAt(b.size, 4, o, k, s);
    assert s == (o + z) + k + [];
    DigitsAt(|b.last|, 4, o + z, [], s);
  }

  /** The footer: the number of blocks and the size of all last keys. */
  lemma {:induction false} FooterBytes(bs: seq<Block>)
    ensures var s := Footer(bs);
            && (forall i | 0 <= i < 4 :: s[i] == Digit(|bs|, i))
            && (forall i | 0 <= i < 4 :: s[4 + i] == Digit(KeysSize(LastKeys(bs)), i))
  {
    var s := Footer(bs);
    var n, k := Little(|bs|, 4), Little(|KeyBytes(bs)|, 4);
    KeysSizeIs(LastKeys(bs));
    assert s == [] + n + k;
    DigitsAt(|bs|, 4, [], k, s);
    assert s == n + k + [];
    DigitsAt(|KeyBytes(bs)|, 4, n, [], s);
  }

  // ----- the file

  /** The block of a group: it starts behind the groups before it. */
  lemma {:induction false} BlockBytes(gs: seq<Group>, g: nat)
    requires NonEmptyGroups(gs) && g < |gs|
    ensures BlockOf(gs, g)
         == Block(DataSize(Flatten(gs[..g])), DataSize(gs[g]), gs[g][|gs[g]| - 1].key)
  {
    DataSizeIs(Flatten(gs[..g]));
    DataSizeIs(gs[g]);
  }

  function LastKeysOf(gs: seq<Group>): (ks: seq<Buffer>)
    requires NonEmptyGroups(gs)
    ensures |ks| == |gs| && forall g | 0 <= g < |gs| :: ks[g] == gs[g][|gs[g]| - 1].key
  {
    seq(|gs|, g requires 0 <= g < |gs| => gs[g][|gs[g]| - 1].key)
  }

  lemma {:induction false} LastKeysAre(gs: seq<Group>)
    requires NonEmptyGroups(gs)
    ensures LastKeys(BlocksOf(gs)) == LastKeysOf(gs)
  {
  }

  /** `x` stands in `s` at a position. */
  predicate StandsAt(s: Buffer, at: nat, x: Buffer) {
    at + |x| <= |s| && s[at..at + |x|] == x
  }

  lemma {:induction false} InFront(a: Buffer, b: Buffer, at: nat, x: Buffer)
    requires StandsAt(a, at, x)
    ensures StandsAt(a + b, at, x)
  {
  }

  lemma {:induction false} Behind(a: Buffer, b: Buffer, at: nat, x: Buffer)
    requires StandsAt(b, at, x)
    ensures StandsAt(a + b, |a| + at, x)
  {
    forall k | 0 <= k < |x| ensures (a + b)[|a| + at + k] == x[k] {
      assert x[k] == b[at..at + |x|][k];
    }
  }

  lemma {:induction false} InData(data: Buffer, index: Buffer, keys: Buffer, footer: Buffer, at: nat, x: Buffer)
    requires StandsAt(data, at, x)
    ensures StandsAt(data + index + keys + footer, at, x)
  {
    InFront(data, index, at, x);
    InFront(data + index, keys, at, x);
    InFront(data + index + keys, footer, at, x);
  }

  lemma {:induction false} InIndex(data: Buffer, index: Buffer, keys: Buffer, footer: Buffer, at: nat, x: Buffer)
    requires StandsAt(index, at, x)
    ensures StandsAt(data + index + keys + footer, |data| + at, x)
  {
    Behind(data, index, at, x);
    InFront(data + index, keys, |data| + at, x);
    InFront(data + index + keys, footer, |data| + at, x);
  }

  lemma {:induction false} InKeys(data: Buffer, index: Buffer, keys: Buffer, footer: Buffer, at: nat, x: Buffer)
    requires StandsAt(keys, at, x)
    ensures StandsAt(data + index + keys + footer, |data| + |index| + at, x)
  {
    Behind(data + index, keys, at, x);
    InFront(data + index + keys, footer, |data| + |index| + at, x);
  }

  lemma {:induction false} AtEnd(data: Buffer, index: Buffer, keys: Buffer, footer: Buffer)
    ensures StandsAt(data + index + keys + footer, |data| + |index| + |keys|, footer)
  {
    Whole(footer);
    Behind(data + index + keys, footer, 0, footer);
  }

  /** The four parts of a file. */
  lemma {:induction false} FileParts(gs: seq<Group>) returns (data: Buffer, index: Buffer, keys: Buffer, footer: Buffer)
    requires NonEmptyGroups(gs)
    ensures FileBytes(gs) == data + index + keys + footer
    ensures data == EncodeAll(Flatten(gs)) && |data| == DataSize(Flatten(gs))
    ensures index == IndexBytes(BlocksOf(gs)) && |index| == 16 * |gs|
    ensures keys == KeyBytes(BlocksOf(gs)) && footer == Footer(BlocksOf(gs)) && |footer| == 8
  {
    var bs := BlocksOf(gs);
    data, index, keys, footer := EncodeAll(Flatten(gs)), IndexBytes(bs), KeyBytes(bs), Footer(bs);
    DataSizeIs(Flatten(gs));
  }

  lemma {:induction false} KeysAre(gs: seq<Group>)
    requires NonEmptyGroups(gs)
    ensures KeyBytes(BlocksOf(gs)) == Flatten(LastKeysOf(gs))
    ensures |KeyBytes(BlocksOf(gs))| == KeysSize(LastKeysOf(gs))
  {
    LastKeysAre(gs);
    KeysSizeIs(LastKeysOf(gs));
  }

  lemma {:induction false} EntryInData(es: seq<Entry>, j: nat)
    requires j < |es|
    ensures StandsAt(EncodeAll(es), DataSize(es[..j]), Encode(es[j]))
  {
    DataSizeIs(es[..j]);
    EntryPiece(es, j);
    var front, x, rest := EncodeAll(es[..j]), Encode(es[j]), EncodeAll(es[j + 1..]);
    Whole(x);
    InFront(x, rest, 0, x);
    Behind(front, x + rest, 0, x);
  }

  lemma {:induction false} Whole(x: Buffer)
    ensures StandsAt(x, 0, x)
  {
  }

  /** Entry `j` of the file stands behind the entries before it. */
  lemma {:induction false} EntryInFile(gs: seq<Group>, j: nat)
    requires NonEmptyGroups(gs) && j < |Flatten(gs)|
    ensures StandsAt(FileBytes(gs), DataSize(Flatten(gs)[..j]), Encode(Flatten(gs)[j]))
  {
    var data, index, keys, footer := FileParts(gs);
    var at, x := DataSize(Flatten(gs)[..j]), Encode(Flatten(gs)[j]);
    EntryInData(Flatten(gs), j);
    InData(data, index, keys, footer, at, x);
  }

  /** The record of block `g` stands behind the data and the records before it. */
  lemma {:induction false} RecordInFile(gs: seq<Group>, g: nat)
    requires NonEmptyGroups(gs) && g < |gs|
    ensures StandsAt(FileBytes(gs), DataSize(Flatten(gs)) + 16 * g, IndexRecord(BlockOf(gs, g)))
  {
    var data, index, keys, footer := FileParts(gs);
    var x := RecordInIndex(gs, g);
    InIndex(data, index, keys, footer, 16 * g, x);
  }

  lemma {:induction false} RecordInIndex(gs: seq<Group>, g: nat) returns (x: Buffer)
    requires NonEmptyGroups(gs) && g < |gs|
    ensures x == IndexRecord(BlockOf(gs, g)) && StandsAt(IndexBytes(BlocksOf(gs)), 16 * g, x)
  {
    x := IndexRecord(BlockOf(gs, g));
    IndexPiece(BlocksOf(gs), g);
  }

  lemma {:induction false} KeyInKeys(ks: seq<Buffer>, g: nat) returns (at: nat, x: Buffer)
    requires g < |ks|
    ensures at == KeysSize(ks[..g]) && x == ks[g] && StandsAt(Flatten(ks), at, x)
  {
    at, x := KeysSize(ks[..g]), ks[g];
    KeysSizeIs(ks[..g]);
    FlattenPiece(ks, g);
  }

  /** The last key of block `g` stands behind the index and the keys before it. */
  lemma {:induction false} KeyInFile(gs: seq<Group>, g: nat)
    requires NonEmptyGroups(gs) && g < |gs|
    ensures StandsAt(FileBytes(gs), DataSize(Flatten(gs)) + 16 * |gs| + KeysSize(LastKeysOf(gs)[..g]),
                     gs[g][|gs[g]| - 1].key)
  {
    var data, index, keys, footer := FileParts(gs);
    KeysAre(gs);
    var at, x := KeyInKeys(LastKeysOf(gs), g);
    InKeys(data, index, keys, footer, at, x);
  }

  /** The file ends with the footer and there is nothing else in it. */
  lemma {:induction false} FooterInFile(gs: seq<Group>)
    requires NonEmptyGroups(gs)
    ensures var n := DataSize(Flatten(gs)) + 16 * |gs| + KeysSize(LastKeysOf(gs));
            |FileBytes(gs)| == n + 8 && StandsAt(FileBytes(gs), n, Footer(BlocksOf(gs)))
  {
    var data, index, keys, footer := FileParts(gs);
    KeysAre(gs);
    AtEnd(data, index, keys, footer);
  }
}
