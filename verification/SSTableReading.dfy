/** `SSTable::init` of `db/sstable.cc`, on any file whose numbers are not negative. */
module SSTableReading {
  import opened Bytes
  import opened Sequences
  import opened MemoryFiles
  import opened SSTableFormat

  /** The reader keeps offset and size of a block; the last keys are in a list of their own. */
  datatype BlockRef = BlockRef(offset: int, size: int)

  // ----- what a file says

  /** The number of blocks and the size of the keys that the last eight bytes announce. */
  function Announced(content: Buffer): (int, int)
    requires |content| >= 8
  {
    var footer := content[|content| - 8..];
    (LoadSigned32(footer[..4]), LoadSigned32(footer[4..8]))
  }

  /** Record `i` of the index. */
  function RecordAt(index: Buffer, i: nat): Buffer
    requires 16 * i + 16 <= |index|
  {
    index[16 * i..16 * i + 16]
  }

  function RefAt(index: Buffer, i: nat): BlockRef
    requires 16 * i + 16 <= |index|
  {
    BlockRef(LoadSigned64(RecordAt(index, i)[..8]), LoadSigned32(RecordAt(index, i)[8..12]))
  }

  function KeySizeAt(index: Buffer, i: nat): int
    requires 16 * i + 16 <= |index|
  {
    LoadSigned32(RecordAt(index, i)[12..16])
  }

  /** Where the key of record `i` starts: behind the keys of the records before it. */
  function KeyStart(index: Buffer, i: nat): int
    requires 16 * i <= |index|
  {
    if i == 0 then 0 else KeyStart(index, i - 1) + KeySizeAt(index, i - 1)
  }

  predicate SizeInRange(b: BlockRef) {
    0 < b.size <= MAX_BLOCK_SIZE
  }

  /** The block can be read, and the key lies within the `keysSize` bytes of keys. */
  predicate GoodRecord(index: Buffer, keysSize: nat, i: nat)
    requires 16 * i + 16 <= |index|
  {
    SizeInRange(RefAt(index, i)) && 0 <= KeyStart(index, i) <= KeyStart(index, i + 1) <= keysSize
  }

  predicate AllGood(index: Buffer, keysSize: nat, n: nat)
    requires 16 * n <= |index|
  {
    forall i | 0 <= i < n :: GoodRecord(index, keysSize, i)
  }

  /** The lists hold what the first `n` records say. */
  ghost predicate Recorded(blocks: seq<BlockRef>, keys: seq<Buffer>, index: Buffer, keyBytes: Buffer, n: nat)
    requires 16 * n <= |index|
  {
    && |blocks| == |keys| == n
    && forall i | 0 <= i < n ::
         && GoodRecord(index, |keyBytes|, i)
         && blocks[i] == RefAt(index, i) && keys[i] == keyBytes[KeyStart(index, i)..KeyStart(index, i + 1)]
  }

  lemma {:induction false} RecordedMore(blocks: seq<BlockRef>, keys: seq<Buffer>, index: Buffer, keyBytes: Buffer,
                                        i: nat)
    requires 16 * i + 16 <= |index| && Recorded(blocks, keys, index, keyBytes, i) && GoodRecord(index, |keyBytes|, i)
    ensures Recorded(blocks + [RefAt(index, i)],
                     keys + [keyBytes[KeyStart(index, i)..KeyStart(index, i + 1)]], index, keyBytes, i + 1)
  {
  }

  /** The error for a first bad record `i`. */
  ghost predicate Refused(index: Buffer, keysSize: nat, n: nat, ec: Status)
    requires 16 * n <= |index|
  {
    exists i | 0 <= i < n ::
      && AllGood(index, keysSize, i) && !GoodRecord(index, keysSize, i)
      && ec == if SizeInRange(RefAt(index, i)) then NoBufferSpace else BadMessage
  }

  /** The file is long enough for what its footer announces. */
  predicate HasParts(content: Buffer) {
    |content| >= 8 &&
    var (n, size) := Announced(content);
    0 <= n && 0 <= size && n * 16 + size + 8 <= |content|
  }

  function IndexOf(content: Buffer): (index: Buffer)
    requires HasParts(content)
    ensures |index| == Announced(content).0 * 16
  {
    var (n, size) := Announced(content);
    content[|content| - (n * 16 + size + 8)..|content| - (size + 8)]
  }

  function KeysOf(content: Buffer): (keys: Buffer)
    requires HasParts(content)
    ensures |keys| == Announced(content).1
  {
    content[|content| - (Announced(content).1 + 8)..|content| - 8]
  }

  /** No number that the reader uses is negative, and those of the footer fit 32 bits together. */
  ghost predicate NotNegative(content: Buffer) {
    |content| >= 8 ==>
      var (n, size) := Announced(content);
      && 0 <= n && 0 <= size && n * 16 + size + 8 < INT32_LIMIT
      && (HasParts(content) ==> KeySizesNotNegative(IndexOf(content), n))
  }

  ghost predicate KeySizesNotNegative(index: Buffer, n: nat) {
    16 * n <= |index| && forall i | 0 <= i < n :: KeySizeAt(index, i) >= 0
  }

  class SSTable {
    const file: MemoryFile
    var blocks: seq<BlockRef>
    var keys: seq<Buffer>

    constructor (file: MemoryFile)
      ensures this.file == file && blocks == [] && keys == []
    {
      this.file := file;
      blocks, keys := [], [];
    }

    /** One pass of the loop of `init`. The source stores a key before it checks where the key ends; here a key
        that ends outside is not stored. */
    method ParseRecord(index: Buffer, keyBytes: Buffer, i: nat, keysOffset: nat)
      returns (ec: Status, keysOffset': nat)
      requires 16 * i + 16 <= |index| && KeySizeAt(index, i) >= 0
      requires Recorded(blocks, keys, index, keyBytes, i) && keysOffset == KeyStart(index, i)
      modifies `blocks, `keys
      ensures ec == if !SizeInRange(RefAt(index, i)) then BadMessage
                    else if KeyStart(index, i + 1) > |keyBytes| then NoBufferSpace else Ok
      ensures ec == Ok ==> Recorded(blocks, keys, index, keyBytes, i + 1) && keysOffset' == KeyStart(index, i + 1)
    {
      keysOffset' := keysOffset;
      if GoodRecord(index, |keyBytes|, i) { RecordedMore(blocks, keys, index, keyBytes, i); }
      var record := index[16 * i..16 * i + 16];
      var size := LoadSigned32(record[8..12]);
      blocks := blocks + [BlockRef(LoadSigned64(record[..8]), size)];
      if size <= 0 || size > MAX_BLOCK_SIZE {
        return BadMessage, keysOffset';
      }
      keysOffset' := keysOffset + LoadSigned32(record[12..16]);
      if keysOffset' > |keyBytes| {
        return NoBufferSpace, keysOffset';
      }
      keys := keys + [keyBytes[keysOffset..keysOffset']];
      ec := Ok;
    }

    /** The loop of `init`. */
    method ParseIndex(index: Buffer, keyBytes: Buffer, n: nat) returns (ec: Status)
      requires blocks == [] && keys == [] && KeySizesNotNegative(index, n)
      modifies `blocks, `keys
      ensures if AllGood(index, |keyBytes|, n) then ec == Ok else Refused(index, |keyBytes|, n, ec)
      ensures ec == Ok ==> Recorded(blocks, keys, index, keyBytes, n)
    {
      var keysOffset := 0;
      for i := 0 to n
        invariant Recorded(blocks, keys, index, keyBytes, i) && keysOffset == KeyStart(index, i)
      {
        ec, keysOffset := ParseRecord(index, keyBytes, i, keysOffset);
        if ec != Ok {
          assert !GoodRecord(index, |keyBytes|, i);
          return;
        }
      }
      ec := Ok;
    }

    /** A file too short for a footer, or for what its footer announces, is refused. Any other loads if and only if
        every record is good, and then with what the records say; the first bad record decides the error. */
    method Init() returns (ec: Status)
      requires blocks == [] && keys == [] && NotNegative(file.content)
      modifies `blocks, `keys
      ensures |file.content| < 8 ==> ec == NoMessage
      ensures |file.content| >= 8 && !HasParts(file.content) ==> ec == NoBufferSpace
      ensures HasParts(file.content) ==>
                var index, keyBytes, n := IndexOf(file.content), KeysOf(file.content), Announced(file.content).0;
                && (if AllGood(index, |keyBytes|, n) then ec == Ok else Refused(index, |keyBytes|, n, ec))
                && (ec == Ok ==> Recorded(blocks, keys, index, keyBytes, n))
    {
      var fileSize, numBlocks, keysSize;
      ec, fileSize, numBlocks, keysSize := ReadFooter();
      if ec != Ok { return; }
      if fileSize < numBlocks * 16 + keysSize + 8 { return NoBufferSpace; }
      var index, keyBytes;
      ec, index, keyBytes := ReadIndex(fileSize, numBlocks, keysSize);
      if ec != Ok { return; }
      ec := ParseIndex(index, keyBytes, numBlocks);
    }

    /** The start of `init`: the file's size and the two numbers at its end. */
    method ReadFooter() returns (ec: Status, fileSize: int, numBlocks: int, keysSize: int)
      ensures ec == if |file.content| < 8 then NoMessage else Ok
      ensures ec == Ok ==> fileSize == |file.content| && (numBlocks, keysSize) == Announced(file.content)
    {
      var size, buffer;
      ec, fileSize := file.Size();
      numBlocks, keysSize := 0, 0;
      if ec != Ok { return; }
      if fileSize < 8 {
        ec := NoMessage;
        return;
      }
      ec, buffer, size := file.Pread(fileSize - 8, Zeros(8));
      assert buffer == file.content[fileSize - 8..];
      numBlocks, keysSize := LoadSigned32(buffer[..4]), LoadSigned32(buffer[4..8]);
    }

    /** The index and the keys before the footer. */
    method ReadIndex(fileSize: int, numBlocks: nat, keysSize: nat) returns (ec: Status, index: Buffer, keyBytes: Buffer)
      requires HasParts(file.content)
      requires fileSize == |file.content| && (numBlocks, keysSize) == Announced(file.content)
      ensures ec == Ok && index == IndexOf(file.content) && keyBytes == KeysOf(file.content)
    {
      var size;
      keyBytes := [];
      ec, index, size := file.Pread(fileSize - (numBlocks * 16 + keysSize + 8), Zeros(numBlocks * 16));
      if ec != Ok { return; }
      ec, keyBytes, size := file.Pread(fileSize - (keysSize + 8), Zeros(keysSize));
    }
  }

  // ----- what the builder writes

  /** Numbers that survive the trip through the 32- and 64-bit fields. */
  ghost predicate Storable(bs: seq<Block>) {
    && |IndexBytes(bs)| + |KeyBytes(bs)| + 8 < INT32_LIMIT
    && forall i | 0 <= i < |bs| :: bs[i].offset < 0x8000_0000_0000_0000 && 0 < bs[i].size < INT32_LIMIT
  }

  ghost predicate Readable(bs: seq<Block>) {
    forall i | 0 <= i < |bs| :: bs[i].size <= MAX_BLOCK_SIZE
  }

  /** The in-memory index holds the given blocks. */
  ghost predicate Describes(blocks: seq<BlockRef>, keys: seq<Buffer>, bs: seq<Block>) {
    && |blocks| == |keys| == |bs|
    && forall i | 0 <= i < |bs| :: blocks[i] == BlockRef(bs[i].offset, bs[i].size) && keys[i] == bs[i].last
  }

  ghost function KeysOffset(bs: seq<Block>, n: nat): nat
    requires n <= |bs|
  {
    |Flatten(LastKeys(bs)[..n])|
  }

  /** Record `i` of a built index. */
  lemma {:induction false} BuiltRecord(bs: seq<Block>, i: nat)
    requires Storable(bs) && i < |bs|
    ensures RefAt(IndexBytes(bs), i) == BlockRef(bs[i].offset, bs[i].size)
    ensures KeySizeAt(IndexBytes(bs), i) == |bs[i].last|
  {
    IndexPiece(bs, i);
    FlattenPiece(LastKeys(bs), i);
    RecordFields(bs[i]);
  }

  lemma {:induction false} BuiltKeyStart(bs: seq<Block>, i: nat)
    requires Storable(bs) && i <= |bs|
    ensures KeyStart(IndexBytes(bs), i) == KeysOffset(bs, i)
  {
    if i > 0 {
      BuiltKeyStart(bs, i - 1);
      BuiltRecord(bs, i - 1);
      TakeSnoc(LastKeys(bs), i - 1);
      FlattenSnoc(LastKeys(bs)[..i - 1], bs[i - 1].last);
    }
  }

  /** Key `i` of a built file. */
  lemma {:induction false} BuiltKey(bs: seq<Block>, i: nat)
    requires Storable(bs) && i < |bs|
    ensures var index, keyBytes := IndexBytes(bs), KeyBytes(bs);
            && 0 <= KeyStart(index, i) <= KeyStart(index, i + 1) <= |keyBytes|
            && keyBytes[KeyStart(index, i)..KeyStart(index, i + 1)] == bs[i].last
  {
    BuiltKeyStart(bs, i);
    BuiltKeyStart(bs, i + 1);
    TakeSnoc(LastKeys(bs), i);
    FlattenSnoc(LastKeys(bs)[..i], bs[i].last);
    FlattenPiece(LastKeys(bs), i);
  }

  /** Where the parts of a built file are. */
  lemma {:induction false} BuiltParts(content: Buffer, data: Buffer, bs: seq<Block>)
    requires Storable(bs) && content == data + IndexBytes(bs) + KeyBytes(bs) + Footer(bs)
    ensures HasParts(content) && Announced(content) == (|bs|, |KeyBytes(bs)|)
    ensures IndexOf(content) == IndexBytes(bs) && KeysOf(content) == KeyBytes(bs)
  {
    Layout(data, IndexBytes(bs), KeyBytes(bs), Footer(bs));
    FooterFields(bs);
  }

  lemma {:induction false} BuiltNotNegative(content: Buffer, data: Buffer, bs: seq<Block>)
    requires Storable(bs) && content == data + IndexBytes(bs) + KeyBytes(bs) + Footer(bs)
    ensures NotNegative(content)
  {
    BuiltParts(content, data, bs);
    forall i | 0 <= i < |bs| ensures KeySizeAt(IndexBytes(bs), i) >= 0 { BuiltRecord(bs, i); }
  }

  /** A built index is good exactly when no block is over the limit, and is refused for nothing else. */
  lemma {:induction false} BuiltIsGood(bs: seq<Block>)
    requires Storable(bs)
    ensures AllGood(IndexBytes(bs), |KeyBytes(bs)|, |bs|) <==> Readable(bs)
    ensures forall ec | Refused(IndexBytes(bs), |KeyBytes(bs)|, |bs|, ec) :: ec == BadMessage
  {
    forall i | 0 <= i < |bs|
      ensures GoodRecord(IndexBytes(bs), |KeyBytes(bs)|, i) <==> bs[i].size <= MAX_BLOCK_SIZE
      ensures SizeInRange(RefAt(IndexBytes(bs), i)) <==> bs[i].size <= MAX_BLOCK_SIZE
    {
      BuiltRecord(bs, i);
      BuiltKey(bs, i);
    }
  }

  /** What is loaded from a built file are the builder's blocks. */
  lemma {:induction false} BuiltDescribes(blocks: seq<BlockRef>, keys: seq<Buffer>, bs: seq<Block>)
    requires Storable(bs) && Recorded(blocks, keys, IndexBytes(bs), KeyBytes(bs), |bs|)
    ensures Describes(blocks, keys, bs)
  {
    forall i | 0 <= i < |bs| ensures blocks[i] == BlockRef(bs[i].offset, bs[i].size) && keys[i] == bs[i].last {
      BuiltRecord(bs, i);
      BuiltKey(bs, i);
    }
  }
}
