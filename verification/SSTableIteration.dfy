/** `SSTable::Iterator` and `SSTable::lookup`, `db/sstable.cc`. */
module SSTableIteration {
  import opened Options
  import opened Bytes
  import opened Sequences
  import opened MemoryFiles
  import opened SSTableFormat
  import opened SSTableReading
  import opened SSTableSearch

  /** `table` was loaded from the file of the table `gs`. */
  ghost predicate Loaded(table: SSTable, gs: seq<Group>)
    reads table, table.file
  {
    && NonEmptyGroups(gs) && (forall g | 0 <= g < |gs| :: |EncodeAll(gs[g])| < INT32_LIMIT)
    && EncodeAll(Flatten(gs)) <= table.file.content
    && Describes(table.blocks, table.keys, BlocksOf(gs))
  }

  /** The fields of an encoded entry that stands after `front`. */
  lemma {:induction false} EntryBehind(front: Buffer, e: Entry, rest: Buffer, s: Buffer)
    requires |e.key| < INT32_LIMIT && |e.value| < INT32_LIMIT && s == front + (Encode(e) + rest)
    ensures var at := |front|;
            && LoadSigned32(s[at..at + 4]) == |e.key| && LoadSigned32(s[at + 4..at + 8]) == |e.value|
            && s[at + 8..at + 8 + |e.key|] == e.key
            && s[at + 8 + |e.key|..at + 8 + |e.key| + |e.value|] == e.value
  {
    EntryFields(e, rest);
    var at := |front|;
    assert s[at..] == Encode(e) + rest;
    SliceOfDrop(s, at, 0, 4);
    SliceOfDrop(s, at, 4, 8);
    SliceOfDrop(s, at, 8, 8 + |e.key|);
    SliceOfDrop(s, at, 8 + |e.key|, 8 + |e.key| + |e.value|);
  }

  /** Entry `j` of a block: where it ends, and that only the last one ends with the block. */
  lemma {:induction false} EntryEnds(es: seq<Entry>, j: nat)
    requires j < |es|
    ensures var end := |EncodeAll(es[..j])| + |Encode(es[j])|;
            && end == |EncodeAll(es[..j + 1])| <= |EncodeAll(es)|
            && (end == |EncodeAll(es)| <==> j + 1 == |es|)
  {
    EntryPiece(es, j);
    if j + 1 < |es| {
      EntryPiece(es, j + 1);
    } else {
      TakeAll(es);
    }
  }

  /** The fields of entry `j` of a block, read at its offset. */
  lemma {:induction false} EntryAt(es: seq<Entry>, j: nat)
    requires j < |es| && |EncodeAll(es)| < INT32_LIMIT
    ensures var s, at, e := EncodeAll(es), |EncodeAll(es[..j])|, es[j];
            && at + 8 + |e.key| + |e.value| == |EncodeAll(es[..j + 1])| <= |s|
            && (at + 8 + |e.key| + |e.value| == |s| <==> j + 1 == |es|)
            && LoadSigned32(s[at..at + 4]) == |e.key| && LoadSigned32(s[at + 4..at + 8]) == |e.value|
            && s[at + 8..at + 8 + |e.key|] == e.key
            && s[at + 8 + |e.key|..at + 8 + |e.key| + |e.value|] == e.value
  {
    EntryEnds(es, j);
    EntryPiece(es, j);
    EntryBehind(EncodeAll(es[..j]), es[j], EncodeAll(es[j + 1..]), EncodeAll(es));
  }

  class Iterator {
    const table: SSTable
    var iter: nat
    var buffer: Buffer
    var offset: nat
    ghost const gs: seq<Group>
    ghost var entry: nat        // which entry of block `iter` the iterator is on

    constructor (table: SSTable, ghost gs: seq<Group>)
      ensures this.table == table && this.gs == gs && Exhausted()
    {
      this.table, this.gs := table, gs;
      iter, buffer, offset, entry := 0, [], 0, 0;
    }

    /** Behind all that has been read: nothing yet, or everything. */
    ghost predicate Exhausted()
      reads this
    {
      offset == |buffer|
    }

    /** The iterator is on an entry of the table. */
    ghost predicate Placed()
      reads this
    {
      && iter < |gs| && entry < |gs[iter]|
      && buffer == EncodeAll(gs[iter]) && offset == |EncodeAll(gs[iter][..entry])|
    }

    /** Its place in the list of all entries. */
    ghost function Place(): nat
      reads this
      requires Placed()
    {
      Position(gs, iter, entry)
    }

    method Read() returns (ec: Status)
      requires Loaded(table, gs) && iter < |gs|
      modifies `buffer
      ensures ec == Ok && buffer == EncodeAll(gs[iter])
    {
      BlockPiece(gs, iter);
      var block := table.blocks[iter];
      var resized := if block.size <= |buffer| then buffer[..block.size] else buffer + Zeros(block.size - |buffer|);
      var size;
      ec, buffer, size := table.file.Pread(block.offset, resized);
    }

    method Start() returns (ec: Status)
      requires Loaded(table, gs)
      modifies this
      ensures Loaded(table, gs)
      ensures ec == if gs == [] then NoMessageAvailable else Ok
      ensures ec == Ok ==> Placed() && Place() == 0
    {
      if table.blocks == [] {
        return NoMessageAvailable;
      }
      ec := Open(0);
      assert gs[..0] == [];
    }

    /** Go to the first entry of a block. */
    method Open(block: nat) returns (ec: Status)
      requires Loaded(table, gs) && block < |gs|
      modifies this
      ensures Loaded(table, gs) && ec == Ok && Placed() && iter == block && Place() == Position(gs, block, 0)
    {
      iter, offset, entry := block, 0, 0;
      ec := Read();
      assert gs[block][..0] == [];
    }

    method Next() returns (ec: Status)
      requires Loaded(table, gs) && (Placed() || Exhausted())
      modifies this
      ensures Loaded(table, gs)
      ensures old(Exhausted()) ==> ec == NoBufferSpace && Exhausted()
      ensures old(Placed()) ==> ec == if old(AtEnd()) then NoMessageAvailable else Ok
      ensures ec == NoMessageAvailable ==> Exhausted()
      ensures old(Placed()) && ec == Ok ==> Placed() && Place() == old(Place()) + 1
      ensures old(Placed() && entry + 1 < |gs[iter]|) ==> iter == old(iter)
    {
      var end;
      ec, end := EntryEnd();
      if ec != Ok { return; }
      offset, entry := end, entry + 1;
      if offset == |buffer| {
        ec := NextBlock();
      }
    }

    /** Where the entry ends that the iterator is on, as `next` reads it. */
    method EntryEnd() returns (ec: Status, end: nat)
      requires Loaded(table, gs) && (Placed() || Exhausted())
      ensures Exhausted() ==> ec == NoBufferSpace
      ensures Placed() ==> ec == Ok && end == |EncodeAll(gs[iter][..entry + 1])|
      ensures Placed() ==> (end == |buffer| <==> entry + 1 == |gs[iter]|)
    {
      end := offset;
      if Placed() { EntryAt(gs[iter], entry); }
      if offset + 8 > |buffer| {
        return NoBufferSpace, end;
      }
      var keySize := LoadSigned32(buffer[offset..offset + 4]);
      var valueSize := LoadSigned32(buffer[offset + 4..offset + 8]);
      if offset + 8 + keySize + valueSize > |buffer| {
        return NoBufferSpace, end;
      }
      ec, end := Ok, offset + 8 + keySize + valueSize;
    }

    /** On the very last entry. */
    ghost predicate AtEnd()
      reads this
      requires Placed()
    {
      iter + 1 == |gs| && entry + 1 == |gs[iter]|
    }

    /** The part of `next` that moves on to the following block. */
    method NextBlock() returns (ec: Status)
      requires Loaded(table, gs) && iter < |gs| && entry == |gs[iter]| && Exhausted()
      modifies this
      ensures ec == NoMessageAvailable ==> Exhausted()
      ensures ec == if old(iter) + 1 == |gs| then NoMessageAvailable else Ok
      ensures ec == Ok ==> Placed() && Place() == Position(gs, old(iter), old(entry))
    {
      PositionNext(gs, iter);
      iter := iter + 1;
      if iter == |table.blocks| {
        return NoMessageAvailable;
      }
      ec := Open(iter);
    }

    method Key() returns (key: Buffer)
      requires Loaded(table, gs) && Placed()
      ensures key == gs[iter][entry].key
    {
      EntryAt(gs[iter], entry);
      var keySize := LoadSigned32(buffer[offset..offset + 4]);
      key := buffer[offset + 8..offset + 8 + keySize];
    }

    method Value() returns (value: Buffer)
      requires Loaded(table, gs) && Placed()
      ensures value == gs[iter][entry].value
    {
      EntryAt(gs[iter], entry);
      var keySize := LoadSigned32(buffer[offset..offset + 4]);
      var valueSize := LoadSigned32(buffer[offset + 4..offset + 8]);
      value := buffer[offset + 8 + keySize..offset + 8 + keySize + valueSize];
    }

    method Seek(key: Buffer) returns (ec: Status)
      requires Loaded(table, gs) && Sorted(Flatten(gs))
      modifies this
      ensures Loaded(table, gs)
      ensures ec == Ok ==> Placed() && IsFirstAtLeast(Flatten(gs), key, Place())
      ensures ec != Ok ==> ec == NoMessageAvailable && IsFirstAtLeast(Flatten(gs), key, |Flatten(gs)|)
    {
      var block := FindBlock(key, Flatten(gs));
      if block == |table.keys| {
        PositionEnd(gs);
        return NoMessageAvailable;
      }
      ec := Open(block);
      if ec != Ok { return; }
      ec := SkipBelow(key, Flatten(gs));
    }

    /** The block that `seek` starts in: all entries before it are less than `key`. */
    method FindBlock(key: Buffer, ghost es: seq<Entry>) returns (block: nat)
      requires Loaded(table, gs) && Sorted(es) && es == Flatten(gs)
      ensures block <= |gs| && Position(gs, block, 0) <= |es| && AllLess(es, Position(gs, block, 0), key)
      ensures block < |gs| ==> AtMost(key, gs[block][|gs[block]| - 1].key)
    {
      KeysSorted(table, gs);
      block := LowerBound(table.keys, key);
      BeforeBlock(gs, block, key);
    }

    /** On an entry before which all keys are less than `key`, in a block whose last key is not. */
    ghost predicate Approaching(key: Buffer, es: seq<Entry>)
      reads this, table, table.file
    {
      && Loaded(table, gs) && Placed() && AtMost(key, gs[iter][|gs[iter]| - 1].key)
      && es == Flatten(gs) && Place() <= |es| && AllLess(es, Place(), key)
    }

    /** The loop of `seek`; the last key of the block stops it. */
    method SkipBelow(key: Buffer, ghost es: seq<Entry>) returns (ec: Status)
      requires Approaching(key, es)
      modifies this
      ensures Loaded(table, gs) && ec == Ok && Placed() && IsFirstAtLeast(es, key, Place())
    {
      ec := Ok;
      var current := PeekKey(es);
      while Less(current, key)
        invariant ec == Ok && Approaching(key, es) && Place() < |es| && es[Place()].key == current
        decreases |es| - Place()
      {
        ec := StepBelow(key, es);
        if ec != Ok { return; }
        current := PeekKey(es);
      }
    }

    /** One pass of that loop. */
    method StepBelow(key: Buffer, ghost es: seq<Entry>) returns (ec: Status)
      requires Approaching(key, es) && Place() < |es| && Less(es[Place()].key, key)
      modifies this
      ensures ec == Ok && Approaching(key, es) && Place() == old(Place()) + 1
    {
      BelowKey(gs, es, iter, entry, key);
      ec := Next();
    }

    /** `key()`, and where the entry stands in the whole list. */
    method PeekKey(ghost es: seq<Entry>) returns (key: Buffer)
      requires Loaded(table, gs) && Placed() && es == Flatten(gs)
      ensures key == gs[iter][entry].key && Place() < |es| && es[Place()].key == key
    {
      PositionEntry(gs, iter, entry);
      key := Key();
    }
  }

  ghost predicate AllLess(es: seq<Entry>, n: nat, key: Buffer)
    requires n <= |es|
  {
    forall i | 0 <= i < n :: Less(es[i].key, key)
  }

  /** An entry below the key is not the last of a block whose last key is not. */
  lemma {:induction false} BelowKey(gs: seq<Group>, es: seq<Entry>, g: nat, j: nat, key: Buffer)
    requires es == Flatten(gs) && g < |gs| && j < |gs[g]| && AtMost(key, gs[g][|gs[g]| - 1].key)
    requires Position(gs, g, j) < |es| && AllLess(es, Position(gs, g, j), key)
    requires Less(es[Position(gs, g, j)].key, key)
    ensures j + 1 < |gs[g]| && AllLess(es, Position(gs, g, j) + 1, key)
  {
    PositionEntry(gs, g, j);
    LessUpTo(es, Position(gs, g, j), key);
  }

  lemma {:induction false} LessUpTo(es: seq<Entry>, n: nat, key: Buffer)
    requires n < |es| && AllLess(es, n, key) && Less(es[n].key, key)
    ensures AllLess(es, n + 1, key)
  {
  }

  lemma {:induction false} KeysSorted(table: SSTable, gs: seq<Group>)
    requires Loaded(table, gs) && Sorted(Flatten(gs))
    ensures forall g, h | 0 <= g < h < |table.keys| :: AtMost(table.keys[g], table.keys[h])
  {
    forall g, h | 0 <= g < h < |gs| ensures AtMost(table.keys[g], table.keys[h]) { LastKeysSorted(gs, g, h); }
  }

  /** `absl::c_lower_bound`: the first key that is not less than `key`. */
  method LowerBound(keys: seq<Buffer>, key: Buffer) returns (first: nat)
    requires forall i, j | 0 <= i < j < |keys| :: AtMost(keys[i], keys[j])
    ensures first <= |keys|
    ensures forall i | 0 <= i < first :: Less(keys[i], key)
    ensures forall i | first <= i < |keys| :: AtMost(key, keys[i])
    ensures first < |keys| ==> AtMost(key, keys[first])
  {
    first := 0;
    var len := |keys|;
    while len > 0
      invariant 0 <= len && first + len <= |keys|
      invariant forall i | 0 <= i < first :: Less(keys[i], key)
      invariant forall i | first + len <= i < |keys| :: AtMost(key, keys[i])
    {
      var half := len / 2;
      var mid := first + half;
      if Less(keys[mid], key) {
        forall i | first <= i < mid ensures Less(keys[i], key) {
          if AtMost(key, keys[i]) { AtMostTransitive(key, keys[i], keys[mid]); }
        }
        first, len := mid + 1, len - half - 1;
      } else {
        forall i | mid < i < |keys| ensures AtMost(key, keys[i]) { AtMostTransitive(key, keys[mid], keys[i]); }
        len := half;
      }
    }
  }

  /** `SSTable::lookup`. */
  method Lookup(table: SSTable, key: Buffer, ghost gs: seq<Group>) returns (ec: Status, value: Buffer)
    requires Loaded(table, gs) && Sorted(Flatten(gs))
    ensures match Find(Flatten(gs), key)
            case Some(v) => ec == Ok && value == v
            case None => ec == NoMessageAvailable
  {
    value := [];
    var cursor := new Iterator(table, gs);
    ec := cursor.Seek(key);
    if ec != Ok {
      FirstAtLeastDecides(Flatten(gs), key, |Flatten(gs)|);
      return;
    }
    FirstAtLeastDecides(Flatten(gs), key, cursor.Place());
    PositionEntry(gs, cursor.iter, cursor.entry);
    var found := cursor.Key();
    if found != key {
      return NoMessageAvailable, value;
    }
    value := cursor.Value();
  }
}
