/** `SSTableBuilder` of `db/sstable.cc`. */
module SSTableBuilding {
  import opened Bytes
  import opened Sequences
  import opened MemoryFiles
  import opened SSTableFormat

  class SSTableBuilder {
    const file: MemoryFile
    const blockSize: int
    const flushSize: nat
    var buffer: Buffer
    var blocks: seq<Block>
    ghost var groups: seq<Group>

    /** What was flushed and what is still buffered make up the data of all entries added so far. */
    ghost predicate Good()
      reads this, file
    {
      && file.position == |file.content|
      && NonEmptyGroups(groups) && blocks == BlocksOf(groups)
      && file.content + buffer == EncodeAll(Flatten(groups))
    }

    constructor (file: MemoryFile, blockSize: int, flushSize: nat)
      requires file.content == [] && file.position == 0
      ensures Good() && this.file == file && this.blockSize == blockSize && groups == []
    {
      this.file := file;
      this.blockSize := blockSize;
      this.flushSize := flushSize;
      buffer, blocks, groups := [], [], [];
    }

    method Flush() returns (ec: Status)
      requires file.position == |file.content|
      modifies `buffer, file
      ensures ec == Ok && buffer == [] && file.content == old(file.content + buffer)
      ensures file.position == |file.content|
    {
      var size;
      ec, size := file.Write(buffer);
      if ec != Ok { return; }
      buffer := [];
    }

    /** Append bytes and flush if enough is buffered. */
    method Append(data: Buffer) returns (ec: Status)
      requires file.position == |file.content|
      modifies `buffer, file
      ensures ec == Ok && file.content + buffer == old(file.content + buffer) + data
      ensures file.position == |file.content|
      ensures if |old(buffer)| + |data| >= flushSize then buffer == []
              else buffer == old(buffer) + data && file.content == old(file.content)
    {
      Associate(file.content, buffer, data);
      buffer := buffer + data;
      if |buffer| >= flushSize {
        ec := Flush();
        if ec != Ok { return; }
      }
      ec := Ok;
    }

    method Add(key: Buffer, value: Buffer) returns (ec: Status)
      requires Good()
      requires |Encode(Entry(key, value))| + (if groups == [] then 0 else |EncodeAll(LastGroup(groups))|) < INT32_LIMIT
      modifies this, file
      ensures Good() && ec == Ok
      ensures groups == AddEntry(old(groups), Entry(key, value), blockSize)
      ensures if |old(buffer)| + (8 + |key| + |value|) >= flushSize then buffer == []
              else file.content == old(file.content)
    {
      ghost var e := Entry(key, value);
      AddEntryEncodes(groups, e, blockSize);
      AddToBlocks(key, 8 + |key| + |value|, e);
      ec := Append(Little(|key|, 4) + Little(|value|, 4) + key + value);
    }

    /** The bookkeeping of `add`: open a block or extend the last one. */
    method AddToBlocks(key: Buffer, entrySize: nat, ghost e: Entry)
      requires NonEmptyGroups(groups) && blocks == BlocksOf(groups)
      requires e.key == key && |Encode(e)| == entrySize
      modifies `blocks, `groups
      ensures groups == AddEntry(old(groups), e, blockSize)
      ensures NonEmptyGroups(groups) && blocks == BlocksOf(groups)
    {
      AddBlockDescribes(groups, e, blockSize);
      ExtendBlocks(key, entrySize);
      groups := AddEntry(groups, e, blockSize);
    }

    method ExtendBlocks(key: Buffer, entrySize: nat)
      modifies `blocks
      ensures blocks == AddBlock(old(blocks), key, entrySize, blockSize)
    {
      if blocks == [] {
        blocks := [Block(0, entrySize, key)];
      } else {
        var last := blocks[|blocks| - 1];
        if last.size + entrySize > blockSize {
          blocks := blocks + [Block(last.offset + last.size, entrySize, key)];
        } else {
          blocks := blocks[..|blocks| - 1] + [last.(size := last.size + entrySize, last := key)];
        }
      }
    }

    /** The first loop of `finish`. */
    method WriteIndex() returns (ec: Status)
      requires file.position == |file.content|
      modifies `buffer, file
      ensures ec == Ok && file.position == |file.content|
      ensures file.content + buffer == old(file.content + buffer) + IndexBytes(blocks)
    {
      ec := Ok;
      ghost var front, records := file.content + buffer, IndexRecords(blocks);
      assert front + [] == front;
      for i := 0 to |blocks|
        invariant ec == Ok && file.position == |file.content|
        invariant file.content + buffer == front + Flatten(records[..i])
      {
        FlattenSnoc(records[..i], records[i]);
        TakeSnoc(records, i);
        Associate(front, Flatten(records[..i]), records[i]);
        ec := Append(Little(blocks[i].offset, 8) + Little(blocks[i].size, 4) + Little(|blocks[i].last|, 4));
        if ec != Ok { return; }
      }
      TakeAll(records);
    }

    /** The second loop of `finish`. */
    method WriteKeys() returns (ec: Status, keysSize: nat)
      requires file.position == |file.content|
      modifies `buffer, file
      ensures ec == Ok && file.position == |file.content| && keysSize == |KeyBytes(blocks)|
      ensures file.content + buffer == old(file.content + buffer) + KeyBytes(blocks)
    {
      ec, keysSize := Ok, 0;
      ghost var front, keys := file.content + buffer, LastKeys(blocks);
      assert front + [] == front;
      for i := 0 to |blocks|
        invariant ec == Ok && file.position == |file.content|
        invariant file.content + buffer == front + Flatten(keys[..i]) && keysSize == |Flatten(keys[..i])|
      {
        FlattenSnoc(keys[..i], keys[i]);
        TakeSnoc(keys, i);
        Associate(front, Flatten(keys[..i]), keys[i]);
        ec := Append(blocks[i].last);
        if ec != Ok { return; }
        keysSize := keysSize + |blocks[i].last|;
      }
      TakeAll(keys);
    }

    method Finish() returns (ec: Status)
      requires Good() && FitsInts(groups)
      modifies `buffer, file
      ensures ec == Ok && NonEmptyGroups(groups) && file.content == FileBytes(groups)
    {
      var keysSize;
      ec, keysSize := WriteTables();
      if ec != Ok { return; }
      ec := WriteFooter(keysSize);
    }

    /** The two loops of `finish`. */
    method WriteTables() returns (ec: Status, keysSize: nat)
      requires file.position == |file.content|
      modifies `buffer, file
      ensures ec == Ok && file.position == |file.content| && keysSize == |KeyBytes(blocks)|
      ensures file.content + buffer == old(file.content + buffer) + IndexBytes(blocks) + KeyBytes(blocks)
    {
      keysSize := 0;
      ec := WriteIndex();
      if ec != Ok { return; }
      ec, keysSize := WriteKeys();
    }

    /** The end of `finish`: the footer, flushed whatever its size. */
    method WriteFooter(keysSize: nat) returns (ec: Status)
      requires file.position == |file.content| && keysSize == |KeyBytes(blocks)|
      modifies `buffer, file
      ensures ec == Ok && file.content == old(file.content + buffer) + Footer(blocks)
    {
      Associate(file.content, buffer, Footer(blocks));
      buffer := buffer + (Little(|blocks|, 4) + Little(keysSize, 4));
      ec := Flush();
    }
  }
}
