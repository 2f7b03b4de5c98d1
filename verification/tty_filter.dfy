/** What the terminal output filters hand to the stream beneath them, and the
    reference line-feed expansion both filters are measured against. */
module TtyOutput {

  const LF: int := 0x0A
  const CR: int := 0x0D

  /** One call reaching the underlying `OutputStream`. */
  datatype SinkCall = Write(b: int) | Flush

  function Writes(s: seq<int>): (calls: seq<SinkCall>)
    ensures |calls| == |s|
    ensures forall k :: 0 <= k < |s| ==> calls[k] == Write(s[k])
  {
    if |s| == 0 then [] else [Write(s[0])] + Writes(s[1..])
  }

  function CountLf(s: seq<int>): nat
  {
    if |s| == 0 then 0 else (if s[0] == LF then 1 else 0) + CountLf(s[1..])
  }

  /** Undoes the expansion: drops the CR that directly follows an LF. */
  function CollapseLf(t: seq<int>): seq<int>
  {
    if |t| == 0 then []
    else if t[0] == LF && |t| >= 2 && t[1] == CR then [LF] + CollapseLf(t[2..])
    else [t[0]] + CollapseLf(t[1..])
  }

  /** Every LF becomes LF followed by CR; every other value is kept, once,
      in place. */
  function ExpandLf(s: seq<int>): (t: seq<int>)
    ensures |t| == |s| + CountLf(s)
    ensures CollapseLf(t) == s
    ensures CountLf(s) == 0 ==> t == s
  {
    if |s| == 0 then []
    else
      var rest := ExpandLf(s[1..]);
      if s[0] == LF then
        assert ([LF, CR] + rest)[2..] == rest;
        [LF, CR] + rest
      else
        assert ([s[0]] + rest)[1..] == rest;
        [s[0]] + rest
  }

  /** The expansion works byte by byte: the output of a concatenation is the
      concatenation of the outputs, so byte order is preserved. */
  lemma {:induction false} ExpandAppend(a: seq<int>, b: seq<int>)
    ensures ExpandLf(a + b) == ExpandLf(a) + ExpandLf(b)
  {
    if |a| == 0 {
      assert a + b == b;
    } else {
      assert (a + b)[0] == a[0] && (a + b)[1..] == a[1..] + b;
      ExpandAppend(a[1..], b);
    }
  }

  lemma WritesAppend(a: seq<int>, b: seq<int>)
    ensures Writes(a + b) == Writes(a) + Writes(b)
  {
  }
}

/** The gated filter (`me.bazhenov.groovysh.TtyFilterOutputStream`): expands
    LF and lets nothing through, writes or flushes, while the shared channel
    liveness flag reads false. */
module TtyFilter {
  import opened TtyOutput

  /** `write(int c)`: LF is written, then CR in its place. */
  function WriteInt(alive: bool, c: int): (calls: seq<SinkCall>)
    ensures !alive ==> calls == []
    ensures alive ==> calls == Writes(ExpandLf([c]))
    ensures alive && c == LF ==> calls == [Write(0x0A), Write(0x0D)]
    ensures alive && c != LF ==> calls == [Write(c)]
  {
    if alive then
      if c == LF then [Write(LF), Write(CR)]
      else [Write(c)]
    else []
  }

  /** `flush()`. */
  function FlushStream(alive: bool): (calls: seq<SinkCall>)
    ensures Flush in calls <==> alive
    ensures forall k :: 0 <= k < |calls| ==> !calls[k].Write?
  {
    if alive then [Flush] else []
  }

  /** The calls an array write made, and whether it stopped on an
      `ArrayIndexOutOfBoundsException`. */
  datatype ArrayWrite = ArrayWrite(calls: seq<SinkCall>, outOfBounds: bool)

  /** The loop `for (i = off; i < len; i++) write(b[i])`, from index `i`. */
  function WriteFrom(alive: bool, b: seq<int>, i: int, len: int): ArrayWrite
    decreases len - i
  {
    if i >= len then ArrayWrite([], false)
    else if i < 0 || i >= |b| then ArrayWrite([], true)
    else
      var r := WriteFrom(alive, b, i + 1, len);
      ArrayWrite(WriteInt(alive, b[i]) + r.calls, r.outOfBounds)
  }

  /** `write(byte[] b, int off, int len)`. The loop bound is `len` itself, not
      `off + len`: the indices covered are `off` up to `len - 1`. */
  function WriteArray(alive: bool, b: seq<int>, off: int, len: int): ArrayWrite
  {
    if alive then WriteFrom(alive, b, off, len) else ArrayWrite([], false)
  }

  /** While alive and in bounds, the loop from `i` writes the expansion of
      `b[i..len]`. */
  lemma {:induction false} WriteFromInBounds(b: seq<int>, i: int, len: int)
    requires 0 <= i <= len <= |b|
    ensures WriteFrom(true, b, i, len) == ArrayWrite(Writes(ExpandLf(b[i..len])), false)
    decreases len - i
  {
    if i < len {
      WriteFromInBounds(b, i + 1, len);
      assert b[i..len] == [b[i]] + b[i + 1..len];
      ExpandAppend([b[i]], b[i + 1..len]);
      WritesAppend(ExpandLf([b[i]]), ExpandLf(b[i + 1..len]));
    }
  }

  /** A dead channel swallows every write and flush, and even an array write
      with bad indices raises nothing, since the flag is read first. */
  lemma DeadChannelEmitsNothing(c: int, b: seq<int>, off: int, len: int)
    ensures WriteInt(false, c) == []
    ensures FlushStream(false) == []
    ensures WriteArray(false, b, off, len) == ArrayWrite([], false)
  {
  }

  /** An alive array write with `off` within `0..len` and `len <= |b|`
      writes the expansion of exactly `b[off..len]`. */
  lemma WriteArrayCovers(b: seq<int>, off: int, len: int)
    requires 0 <= off <= len <= |b|
    ensures WriteArray(true, b, off, len) == ArrayWrite(Writes(ExpandLf(b[off..len])), false)
  {
    WriteFromInBounds(b, off, len);
  }

  /** From offset 0: one call per byte plus one per LF, and collapsing the
      written bytes gives back the input in order. */
  lemma WriteArrayFromStart(b: seq<int>, len: int)
    requires 0 <= len <= |b|
    ensures var w := WriteArray(true, b, 0, len);
            && !w.outOfBounds
            && |w.calls| == len + CountLf(b[..len])
            && w.calls == Writes(ExpandLf(b[..len]))
            && CollapseLf(ExpandLf(b[..len])) == b[..len]
  {
    WriteFromInBounds(b, 0, len);
    assert b[0..len] == b[..len];
  }

  /** With `off > 0` the loop stops at index `len`: asked for two bytes from
      offset 2 of a four-byte array, it writes nothing at all. */
  lemma WriteArrayStopsAtLen()
    ensures WriteArray(true, [0x61, 0x62, 0x63, 0x64], 2, 2) == ArrayWrite([], false)
  {
  }

  /** The loop the `OutputStream.write(byte[], int, int)` contract asks for:
      `len` bytes starting at `off`. */
  function WriteArrayIntended(alive: bool, b: seq<int>, off: int, len: int): (w: ArrayWrite)
    requires 0 <= off && 0 <= len && off + len <= |b|
    ensures alive ==> w == ArrayWrite(Writes(ExpandLf(b[off..off + len])), false)
    ensures !alive ==> w == ArrayWrite([], false)
  {
    if alive then WriteFromInBounds(b, off, off + len); WriteFrom(alive, b, off, off + len)
    else ArrayWrite([], false)
  }

  /** The operations a session performs on the filter. */
  datatype Op = WriteByte(c: int) | WriteBytes(b: seq<int>, off: int, len: int) | FlushOp

  /** Runs a series of operations; an out-of-bounds array write throws and
      ends the series. */
  function Run(alive: bool, ops: seq<Op>): seq<SinkCall>
  {
    if |ops| == 0 then []
    else
      match ops[0]
      case WriteByte(c) => WriteInt(alive, c) + Run(alive, ops[1..])
      case FlushOp => FlushStream(alive) + Run(alive, ops[1..])
      case WriteBytes(b, off, len) =>
        var w := WriteArray(alive, b, off, len);
        if w.outOfBounds then w.calls else w.calls + Run(alive, ops[1..])
  }

  /** Once the channel is marked dead, no series of operations, however long,
      reaches the underlying stream. */
  lemma {:induction false} DeadSessionIsSilent(ops: seq<Op>)
    ensures Run(false, ops) == []
  {
    if |ops| > 0 {
      DeadSessionIsSilent(ops[1..]);
    }
  }
}

/** The ungated filter of the raw-socket server
    (`com.iterative.groovy.service.TtyFilterOutputStream`). */
module LegacyTtyFilter {
  import opened TtyOutput
  import TtyFilter

  /** `write(int c)`: always writes, LF as LF then CR. */
  function WriteInt(c: int): (calls: seq<SinkCall>)
    ensures 1 <= |calls| <= 2
    ensures calls == Writes(ExpandLf([c]))
  {
    if c == LF then [Write(LF), Write(CR)] else [Write(c)]
  }

  /** `flush()` is inherited from `FilterOutputStream` and always flushes. */
  function FlushStream(): (calls: seq<SinkCall>)
    ensures Flush in calls
  {
    [Flush]
  }

  /** `write(byte[] b, int off, int len)`, with the same `i < len` loop. */
  function WriteFrom(b: seq<int>, i: int, len: int): TtyFilter.ArrayWrite
    decreases len - i
  {
    if i >= len then TtyFilter.ArrayWrite([], false)
    else if i < 0 || i >= |b| then TtyFilter.ArrayWrite([], true)
    else
      var r := WriteFrom(b, i + 1, len);
      TtyFilter.ArrayWrite(WriteInt(b[i]) + r.calls, r.outOfBounds)
  }

  function WriteArray(b: seq<int>, off: int, len: int): TtyFilter.ArrayWrite
  {
    WriteFrom(b, off, len)
  }

  /** The ungated filter behaves as the gated one with the flag held true:
      there is no suppression path. */
  lemma {:induction false} SameAsAliveGatedFilter(c: int, b: seq<int>, off: int, len: int)
    ensures WriteInt(c) == TtyFilter.WriteInt(true, c)
    ensures FlushStream() == TtyFilter.FlushStream(true)
    ensures WriteArray(b, off, len) == TtyFilter.WriteArray(true, b, off, len)
    decreases len - off
  {
    if off < len && 0 <= off < |b| {
      SameAsAliveGatedFilter(c, b, off + 1, len);
    }
  }

  /** From offset 0 the output is the LF expansion of the first `len` bytes:
      `len` plus the number of LFs in length, in the original order. */
  lemma WriteArrayFromStart(b: seq<int>, len: int)
    requires 0 <= len <= |b|
    ensures var w := WriteArray(b, 0, len);
            && !w.outOfBounds
            && |w.calls| == len + CountLf(b[..len])
            && w.calls == Writes(ExpandLf(b[..len]))
  {
    SameAsAliveGatedFilter(0, b, 0, len);
    TtyFilter.WriteArrayFromStart(b, len);
  }
}
