/** `io/memory-file.cc`: a file kept in a byte vector. */
module MemoryFiles {
  import opened Bytes

  /** The `std::error_code` values the modelled code returns. */
  datatype Status =
    | Ok
    | InvalidArgument
    | NoMessage
    | NoBufferSpace
    | BadMessage
    | NoMessageAvailable

  /** `content` with `data` written at `position`; a gap is filled with zeros. */
  function Overwritten(content: Buffer, position: nat, data: Buffer): (r: Buffer)
    ensures |r| == if position + |data| > |content| then position + |data| else |content|
    ensures r[position..position + |data|] == data
    ensures forall i | 0 <= i < |content| && !(position <= i < position + |data|) :: r[i] == content[i]
    ensures forall i | |content| <= i < position :: r[i] == 0
  {
    var last := position + |data|;
    var grown := if last > |content| then content + Zeros(last - |content|) else content;
    grown[..position] + data + grown[last..]
  }

  class MemoryFile {
    var content: Buffer
    var position: nat

    constructor ()
      ensures content == [] && position == 0
    {
      content, position := [], 0;
    }

    method Write(data: Buffer) returns (ec: Status, size: nat)
      modifies this
      ensures ec == Ok && size == |data| && position == old(position) + |data|
      ensures content == Overwritten(old(content), old(position), data)
      ensures old(position) == old(|content|) ==> content == old(content) + data
    {
      var last := position + |data|;
      if last > |content| {
        content := content + Zeros(last - |content|);
      }
      content := content[..position] + data + content[last..];
      size := |data|;
      position := last;
      ec := Ok;
    }

    /** Reads into `buffer` from `at`; what lies beyond the end of the file leaves the buffer as it was. */
    method Pread(at: int, buffer: Buffer) returns (ec: Status, buffer': Buffer, size: nat)
      ensures at < 0 ==> ec == InvalidArgument && buffer' == buffer
      ensures at >= 0 ==> ec == Ok && |buffer'| == |buffer| && size <= |buffer| && buffer'[size..] == buffer[size..]
      ensures at >= |content| ==> size == 0
      ensures 0 <= at < |content| ==> at + size <= |content| && buffer'[..size] == content[at..at + size]
      ensures 0 <= at && at + |buffer| <= |content| ==> buffer' == content[at..at + |buffer|]
    {
      buffer', size := buffer, 0;
      if at < 0 {
        return InvalidArgument, buffer', 0;
      }
      if at >= |content| {
        return Ok, buffer', 0;
      }
      var last := if at + |buffer| <= |content| then at + |buffer| else |content|;
      buffer' := content[at..last] + buffer[last - at..];
      size := last - at;
      ec := Ok;
    }

    method Size() returns (ec: Status, size: nat)
      ensures ec == Ok && size == |content|
    {
      ec, size := Ok, |content|;
    }
  }
}
