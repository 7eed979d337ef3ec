/** A log file that another process keeps appending to, and the chunked scan for its last complete line. */
module LogFile {
  import opened Lines

  const CHUNK_SIZE: nat := 64 * 1024

  /** The end of the last complete line of `s` that begins at or after `start`; `start` when there is none. */
  function CompleteEnd(s: seq<byte>, start: nat): (end: nat)
    ensures start <= end && (start <= |s| ==> end <= |s|)
  {
    if start >= |s| then start else start + LastBreak(s[start..])
  }

  class File {
    var content: seq<byte>

    constructor (content: seq<byte>)
      ensures this.content == content
    {
      this.content := content;
    }

    /** The concurrent writer: it may append anything before any of our reads. */
    method Interfere()
      modifies this
      ensures old(content) <= content
    {
      var extra: seq<byte> := *;
      content := content + extra;
    }

    method ReadAt(from: nat, to: nat) returns (chunk: seq<byte>)
      requires from <= to <= |content|
      modifies this
      ensures old(content) <= content
      ensures chunk == old(content)[from..to]
    {
      Interfere();
      chunk := content[from..to];
    }

    /** A buffered read up to and including the next newline, from `from`, never past `limit`. */
    method ReadBytes(from: nat, limit: nat) returns (line: seq<byte>, eof: bool)
      requires from <= limit <= |content|
      modifies this
      ensures old(content) <= content
      ensures line == old(content)[from..limit][..LineLen(old(content)[from..limit])]
      ensures eof <==> line == [] || line[|line| - 1] != NEWLINE
    {
      Interfere();
      ghost var s := old(content)[from..limit];
      var i := from;
      while i < limit && content[i] != NEWLINE
        invariant from <= i <= limit
        invariant forall k :: 0 <= k < i - from ==> s[k] != NEWLINE
      {
        assert content[i] == s[i - from];
        i := i + 1;
      }
      eof := i == limit;
      if !eof {
        assert content[i] == s[i - from];
        i := i + 1;
      }
      line := content[from..i];
      if s != [] {
        LineLenUnique(s, i - from);
      }
      assert line == s[..i - from];
    }
  }

  /** bytes.LastIndexByte for a newline: -1 when there is none. */
  method LastNewlineIn(chunk: seq<byte>) returns (idx: int)
    ensures idx + 1 == LastBreak(chunk)
  {
    idx := |chunk| - 1;
    while idx >= 0 && chunk[idx] != NEWLINE
      invariant -1 <= idx < |chunk|
      invariant forall k :: idx < k < |chunk| ==> chunk[k] != NEWLINE
    {
      idx := idx - 1;
    }
    LastBreakUnique(chunk, idx + 1);
  }

  lemma {:induction false} ChunkWithoutNewline(s: seq<byte>, start: nat, chunkStart: nat, chunkEnd: nat)
    requires start <= chunkStart <= chunkEnd <= |s|
    requires forall k :: chunkEnd <= k < |s| ==> s[k] != NEWLINE
    requires LastBreak(s[chunkStart..chunkEnd]) == 0
    ensures forall k :: chunkStart <= k < |s| ==> s[k] != NEWLINE
  {
    var chunk := s[chunkStart..chunkEnd];
    LastBreakSpec(chunk);
    forall k | chunkStart <= k < chunkEnd ensures s[k] != NEWLINE {
      assert s[k] == chunk[k - chunkStart];
    }
  }

  lemma {:induction false} ChunkWithNewline(s: seq<byte>, start: nat, chunkStart: nat, chunkEnd: nat)
    requires start <= chunkStart < chunkEnd <= |s|
    requires forall k :: chunkEnd <= k < |s| ==> s[k] != NEWLINE
    requires LastBreak(s[chunkStart..chunkEnd]) > 0
    ensures CompleteEnd(s, start) == chunkStart + LastBreak(s[chunkStart..chunkEnd])
  {
    var chunk := s[chunkStart..chunkEnd];
    var n := LastBreak(chunk);
    LastBreakSpec(chunk);
    var tail := s[start..];
    assert tail[chunkStart - start + n - 1] == chunk[n - 1];
    forall k | chunkStart - start + n <= k < |tail| ensures tail[k] != NEWLINE {
      if start + k < chunkEnd { assert tail[k] == chunk[start + k - chunkStart]; }
    }
    LastBreakUnique(tail, chunkStart - start + n);
  }

  /** Backward scan, one chunk at a time: the chunk boundaries do not show in the result. */
  method FindLastCompleteLineEnd(f: File, start: nat, fileSize: nat) returns (end: nat)
    requires fileSize <= |f.content|
    modifies f
    ensures old(f.content) <= f.content
    ensures end == CompleteEnd(old(f.content)[..fileSize], start)
  {
    ghost var s := f.content[..fileSize];
    if start >= fileSize {
      return start;
    }
    var chunkEnd := fileSize;
    while chunkEnd > start
      invariant start <= chunkEnd <= fileSize <= |f.content|
      invariant old(f.content) <= f.content
      invariant forall k :: chunkEnd <= k < fileSize ==> s[k] != NEWLINE
    {
      var chunkStart := if chunkEnd - start < CHUNK_SIZE then start else chunkEnd - CHUNK_SIZE;
      var chunk := f.ReadAt(chunkStart, chunkEnd);
      assert chunk == s[chunkStart..chunkEnd];
      var idx := LastNewlineIn(chunk);
      if idx >= 0 {
        ChunkWithNewline(s, start, chunkStart, chunkEnd);
        return chunkStart + idx + 1;
      }
      ChunkWithoutNewline(s, start, chunkStart, chunkEnd);
      chunkEnd := chunkStart;
    }
    LastBreakUnique(s[start..], 0);
    return start;
  }
}
