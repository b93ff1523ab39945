/** The argument check and buffer sizing of `ExtractBzip2Range`, which reads
    one compressed block of the archive given its start and end offsets, an
    end of 0 standing for "up to the end of the file". */
module ExtractRange {
  import opened Options
  import opened IndexBuild

  /** The guard at the top of `ExtractBzip2Range`: it refuses a negative
      offset, and a bounded end that does not lie after the start. */
  predicate OffsetsAccepted(start: int, end: int) {
    !(start < 0 || end < 0 || (end > 0 && end <= start))
  }

  /** The guard accepts exactly a non-negative start together with either the
      unbounded end 0 or an end past the start. */
  lemma AcceptedExactly(start: int, end: int)
    ensures OffsetsAccepted(start, end) <==> 0 <= start && (end == 0 || start < end)
  {
  }

  /** The length of the buffer the code allocates for the compressed bytes,
      as written: the end minus the start, whether or not the end is 0. */
  function BufferLength(start: int, end: int): (n: int)
    ensures OffsetsAccepted(start, end) ==> (n > 0 <==> end > 0)
  {
    end - start
  }

  /** For an accepted bounded range the buffer holds exactly the block's
      bytes, and at least one. */
  lemma BoundedBufferPositive(start: int, end: int)
    requires OffsetsAccepted(start, end) && end > 0
    ensures BufferLength(start, end) > 0
    ensures start + BufferLength(start, end) == end
  {
  }

  /** As written, an unbounded end with a positive start passes the guard and
      then asks for a buffer of negative length, on which the allocation
      panics. */
  lemma UnboundedBufferNegative(start: int)
    requires start > 0
    ensures OffsetsAccepted(start, 0)
    ensures BufferLength(start, 0) < 0
  {
  }

  /** The build always produces such a range: the group with the greatest
      start gets the unbounded end, so when that start is positive its block
      is accepted by the guard and cannot be allocated for. */
  lemma {:induction false} LastGroupUnreadable(entries: seq<IndexEntry>, i: int)
    requires 0 <= i < |entries| && entries[i].offsets.Start > 0
    requires forall j :: 0 <= j < |entries| ==> entries[j].offsets.Start <= entries[i].offsets.Start
    requires IsBlockEnd(StartsOf(entries), entries[i].offsets.Start, entries[i].offsets.End)
    ensures entries[i].offsets.End == 0
    ensures OffsetsAccepted(entries[i].offsets.Start, entries[i].offsets.End)
    ensures BufferLength(entries[i].offsets.Start, entries[i].offsets.End) < 0
  {
    var x := entries[i].offsets.Start;
    forall w | w in StartsOf(entries) ensures w <= x {
      var j :| 0 <= j < |entries| && entries[j].offsets.Start == w;
    }
  }

  /** The number of compressed bytes to read, as intended: None when the guard
      refuses the offsets; for a bounded end the block's length; for the
      unbounded end everything from the start to the end of a file of
      `fileSize` bytes (nothing when the start lies at or past it). */
  function ReadLength(start: int, end: int, fileSize: nat): (r: Option<nat>)
    ensures r.Some? <==> OffsetsAccepted(start, end)
    ensures r.Some? && end > 0 ==> start + r.value == end
    ensures r.Some? && end == 0 && start <= fileSize ==> start + r.value == fileSize
    ensures r.Some? && end == 0 && start > fileSize ==> r.value == 0
  {
    if !OffsetsAccepted(start, end) then None
    else if end > 0 then Some(end - start)
    else if start <= fileSize then Some(fileSize - start)
    else Some(0)
  }

  /** The intended length agrees with the allocated one wherever the latter is
      meaningful, on bounded ranges and on the range 0..0 of an empty file, and
      is never negative on the accepted ranges the code cannot allocate for. */
  lemma ReadLengthAgrees(start: int, end: int, fileSize: nat)
    requires OffsetsAccepted(start, end)
    ensures end > 0 ==> ReadLength(start, end, fileSize) == Some(BufferLength(start, end) as nat)
    ensures end == 0 && start == 0 && fileSize == 0 ==> ReadLength(start, end, fileSize) == Some(0)
    ensures BufferLength(start, end) < 0 ==> end == 0 && ReadLength(start, end, fileSize).Some?
  {
    if end > 0 {
      BoundedBufferPositive(start, end);
    }
  }
}
