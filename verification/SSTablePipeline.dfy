/** The whole trip: build a table, load it, search it and walk through it. */
module SSTablePipeline {
  import opened Options
  import opened Bytes
  import opened Sequences
  import opened MemoryFiles
  import opened SSTableFormat
  import opened SSTableBuilding
  import opened SSTableReading
  import opened SSTableSearch
  import opened SSTableIteration

  /** The sizes that `add` computes in 32 bits do not overflow. */
  ghost predicate AddsFit(es: seq<Entry>, blockSize: int) {
    forall i | 0 <= i < |es| ::
      var gs := GroupsOf(es[..i], blockSize);
      |Encode(es[i])| + (if gs == [] then 0 else |EncodeAll(LastGroup(gs))|) < INT32_LIMIT
  }

  /** A list of entries that fits the integer widths of builder and file. */
  ghost predicate Buildable(es: seq<Entry>, blockSize: int) {
    && AddsFit(es, blockSize)
    && NonEmptyGroups(GroupsOf(es, blockSize))
    && FitsInts(GroupsOf(es, blockSize))
  }

  /** Every block is small enough to be read back. */
  ghost predicate GroupsReadable(gs: seq<Group>) {
    forall g | 0 <= g < |gs| :: |EncodeAll(gs[g])| <= MAX_BLOCK_SIZE
  }

  /** What a caller can check: no single entry and no configured block is over the limit. */
  lemma {:induction false} SmallEntriesReadable(es: seq<Entry>, blockSize: int)
    requires blockSize <= MAX_BLOCK_SIZE && forall e | e in es :: |Encode(e)| <= MAX_BLOCK_SIZE
    ensures GroupsReadable(GroupsOf(es, blockSize))
  {
    GroupsPartition(es, blockSize);
    var gs := GroupsOf(es, blockSize);
    forall g | 0 <= g < |gs| ensures |EncodeAll(gs[g])| <= MAX_BLOCK_SIZE {
      if |gs[g]| == 1 { SingleEntry(es, gs, g); }
    }
  }

  lemma {:induction false} SingleEntry(es: seq<Entry>, gs: seq<Group>, g: nat)
    requires es == Flatten(gs) && g < |gs| && |gs[g]| == 1
    ensures gs[g][0] in es && EncodeAll(gs[g]) == Encode(gs[g][0])
  {
    PositionEntry(gs, g, 0);
    assert gs[g] == [gs[g][0]];
    EncodeOne(gs[g][0]);
  }

  lemma {:induction false} BlocksStorable(gs: seq<Group>)
    requires NonEmptyGroups(gs) && FitsInts(gs)
    ensures Storable(BlocksOf(gs))
  {
    forall g | 0 <= g < |gs| ensures BlockOf(gs, g).offset < 0x8000_0000_0000_0000 && 0 < BlockOf(gs, g).size {
      BlockPiece(gs, g);
      EntryPiece(gs[g], 0);
    }
  }

  /** The file depends on the entries and the block size, not on when the builder flushed. */
  method Build(es: seq<Entry>, blockSize: int, flushSize: nat) returns (file: MemoryFile)
    requires Buildable(es, blockSize)
    ensures fresh(file) && file.content == FileBytes(GroupsOf(es, blockSize))
  {
    file := new MemoryFile();
    var builder := new SSTableBuilder(file, blockSize, flushSize);
    var ec;
    for i := 0 to |es|
      invariant builder.file == file && builder.blockSize == blockSize && fresh(builder) && fresh(file)
      invariant builder.Good() && builder.groups == GroupsOf(es[..i], blockSize)
    {
      NextEntryFits(es, i, blockSize);
      ec := builder.Add(es[i].key, es[i].value);
    }
    TakeAll(es);
    ec := builder.Finish();
  }

  lemma {:induction false} NextEntryFits(es: seq<Entry>, i: nat, blockSize: int)
    requires Buildable(es, blockSize) && i < |es|
    ensures GroupsOf(es[..i + 1], blockSize) == AddEntry(GroupsOf(es[..i], blockSize), es[i], blockSize)
    ensures var gs := GroupsOf(es[..i], blockSize);
            |Encode(es[i])| + (if gs == [] then 0 else |EncodeAll(LastGroup(gs))|) < INT32_LIMIT
  {
    TakeSnoc(es, i);
    assert es[..i + 1][..i] == es[..i];
  }

  lemma {:induction false} ReadableGroups(gs: seq<Group>)
    requires NonEmptyGroups(gs)
    ensures Readable(BlocksOf(gs)) <==> GroupsReadable(gs)
  {
    var bs := BlocksOf(gs);
    if Readable(bs) {
      forall g | 0 <= g < |gs| ensures |EncodeAll(gs[g])| <= MAX_BLOCK_SIZE { assert bs[g] == BlockOf(gs, g); }
    }
  }

  /** Loading a built file succeeds exactly when every block can be read back. */
  method Load(file: MemoryFile, ghost gs: seq<Group>) returns (ec: Status, table: SSTable)
    requires NonEmptyGroups(gs) && FitsInts(gs) && file.content == FileBytes(gs)
    ensures fresh(table) && table.file == file
    ensures ec == if GroupsReadable(gs) then Ok else BadMessage
    ensures ec == Ok ==> Loaded(table, gs)
  {
    BlocksStorable(gs);
    ReadableGroups(gs);
    BuiltParts(file.content, EncodeAll(Flatten(gs)), BlocksOf(gs));
    BuiltNotNegative(file.content, EncodeAll(Flatten(gs)), BlocksOf(gs));
    BuiltIsGood(BlocksOf(gs));
    table := new SSTable(file);
    ec := table.Init();
    if ec == Ok {
      BuiltDescribes(table.blocks, table.keys, BlocksOf(gs));
      IsLoaded(table, gs);
    }
  }

  lemma {:induction false} IsLoaded(table: SSTable, gs: seq<Group>)
    requires NonEmptyGroups(gs) && GroupsReadable(gs) && table.file.content == FileBytes(gs)
    requires Describes(table.blocks, table.keys, BlocksOf(gs))
    ensures Loaded(table, gs)
  {
    var bs := BlocksOf(gs);
    Layout(EncodeAll(Flatten(gs)), IndexBytes(bs), KeyBytes(bs), Footer(bs));
  }

  /** On a sorted list, lookup in the built and loaded table is linear search in the list. */
  method BuildAndLookup(es: seq<Entry>, blockSize: int, flushSize: nat, key: Buffer) returns (ec: Status, value: Buffer)
    requires Buildable(es, blockSize) && Sorted(es)
    ensures if !GroupsReadable(GroupsOf(es, blockSize)) then ec == BadMessage
            else match Find(es, key)
                 case Some(v) => ec == Ok && value == v
                 case None => ec == NoMessageAvailable
  {
    value := [];
    GroupsPartition(es, blockSize);
    var file := Build(es, blockSize, flushSize);
    var table;
    ec, table := Load(file, GroupsOf(es, blockSize));
    if ec == Ok {
      ec, value := Lookup(table, key, GroupsOf(es, blockSize));
    }
  }

  /** On any list, sorted or not, iteration yields exactly the entries in order and then the end error. */
  method BuildAndScan(es: seq<Entry>, blockSize: int, flushSize: nat) returns (ec: Status, out: seq<Entry>)
    requires Buildable(es, blockSize)
    ensures if GroupsReadable(GroupsOf(es, blockSize)) then ec == NoMessageAvailable && out == es
            else ec == BadMessage
  {
    out := [];
    GroupsPartition(es, blockSize);
    var file := Build(es, blockSize, flushSize);
    var table;
    ec, table := Load(file, GroupsOf(es, blockSize));
    if ec == Ok {
      ec, out := Scan(table, GroupsOf(es, blockSize));
    }
  }

  /** `start`, then `next` until it fails. */
  method Scan(table: SSTable, ghost gs: seq<Group>) returns (ec: Status, out: seq<Entry>)
    requires Loaded(table, gs)
    ensures ec == NoMessageAvailable && out == Flatten(gs)
  {
    out := [];
    ghost var es := Flatten(gs);
    var cursor := new Iterator(table, gs);
    ec := cursor.Start();
    while ec == Ok
      invariant cursor.gs == gs && cursor.table == table && fresh(cursor) && Loaded(table, gs)
      invariant Scanned(cursor, ec, out, es)
      decreases |es| - |out|, ec == Ok
    {
      ec, out := Collect(cursor, out, es);
    }
  }

  /** `out` holds the entries before the iterator, or all of them once it has reached the end. */
  ghost predicate Scanned(cursor: Iterator, ec: Status, out: seq<Entry>, es: seq<Entry>)
    reads cursor
  {
    && (ec == Ok || ec == NoMessageAvailable)
    && if ec == Ok then cursor.Placed() && cursor.Place() < |es| && out == es[..cursor.Place()] else out == es
  }

  /** One pass of the scan. */
  method Collect(cursor: Iterator, out: seq<Entry>, ghost es: seq<Entry>) returns (ec: Status, out': seq<Entry>)
    requires Loaded(cursor.table, cursor.gs) && es == Flatten(cursor.gs) && Scanned(cursor, Ok, out, es)
    modifies cursor
    ensures Loaded(cursor.table, cursor.gs) && Scanned(cursor, ec, out', es) && |out'| == |out| + 1
  {
    ghost var n := cursor.Place();
    var e := Current(cursor, es);
    out' := out + [e];
    TakeSnoc(es, n);
    TakeAll(es);
    ec := cursor.Next();
    if ec == Ok { PositionEntry(cursor.gs, cursor.iter, cursor.entry); }
  }

  /** `key` and `value` of the entry the iterator is on; behind the last entry the list ends. */
  method Current(cursor: Iterator, ghost es: seq<Entry>) returns (e: Entry)
    requires Loaded(cursor.table, cursor.gs) && es == Flatten(cursor.gs) && cursor.Placed()
    ensures cursor.Place() < |es| && e == es[cursor.Place()]
    ensures cursor.AtEnd() ==> cursor.Place() + 1 == |es|
  {
    PositionEntry(cursor.gs, cursor.iter, cursor.entry);
    if cursor.AtEnd() {
      PositionNext(cursor.gs, cursor.iter);
      PositionEnd(cursor.gs);
    }
    var key := cursor.Key();
    var value := cursor.Value();
    e := Entry(key, value);
  }
}
