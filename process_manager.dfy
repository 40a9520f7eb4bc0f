/** The PTY read loop `ProcessManager::read_output`
    (packages/api/src/process_manager.rs). The PTY reader is a scripted
    `Read`: a finite list of what successive reads find. `String::from_utf8_lossy`
    is a parameter `decode`, applied to each chunk as it is read. Spawning and
    writing to the PTY are left out. */
module ProcessManager {
  import opened Wrappers
  import opened RustString

  /** `let mut buffer = [0u8; 4096]`. */
  const BufferSize: nat := 4096

  /** What the next read finds: bytes (possibly more than one read takes, or
      none, which is end of file), a `WouldBlock` error, or another I/O error
      with its text. */
  datatype ReadOutcome = Data(bytes: seq<byte>) | WouldBlock | Failure(message: string)

  /** The result of one `read(&mut buf)`. */
  datatype IoResult = ReadOk(n: nat) | ReadWouldBlock | ReadErr(message: string)

  /** One read: its result, the bytes it writes to the front of the buffer, and
      the script left for the next read. */
  datatype Step = Step(result: IoResult, bytes: seq<byte>, rest: seq<ReadOutcome>)

  function OutcomeSize(o: ReadOutcome): nat
  {
    if o.Data? then |o.bytes| + 1 else 1
  }

  /** A measure of how much the script still holds. */
  function ScriptSize(script: seq<ReadOutcome>): nat
  {
    if |script| == 0 then 0 else OutcomeSize(script[0]) + ScriptSize(script[1..])
  }

  /** A read into a buffer of `cap` bytes: an exhausted script reads as end of
      file; data is delivered up to the buffer's capacity and the remainder is
      kept for the next read. */
  function ReadStep(script: seq<ReadOutcome>, cap: nat): (s: Step)
    ensures s.result.ReadOk? ==> s.result.n == |s.bytes| <= cap
    ensures !s.result.ReadOk? ==> s.bytes == []
    ensures s.result.ReadOk? && s.result.n > 0 ==> ScriptSize(s.rest) < ScriptSize(script)
    ensures |script| == 0 ==> s == Step(ReadOk(0), [], [])
    ensures |script| > 0 && script[0].Data? ==> s.bytes <= script[0].bytes
  {
    if |script| == 0 then Step(ReadOk(0), [], [])
    else match script[0]
      case WouldBlock => Step(ReadWouldBlock, [], script[1..])
      case Failure(m) => Step(ReadErr(m), [], script[1..])
      case Data(bytes) =>
        var k := if |bytes| < cap then |bytes| else cap;
        if k < |bytes| then
          var rest := [Data(bytes[k..])] + script[1..];
          assert ScriptSize(rest) == |bytes| - k + 1 + ScriptSize(script[1..]) by {
            assert rest[0] == Data(bytes[k..]) && rest[1..] == script[1..];
          }
          Step(ReadOk(k), bytes[..k], rest)
        else
          Step(ReadOk(k), bytes, script[1..])
  }

  /** A `Read` whose successive reads follow a script. */
  class ScriptedReader {
    var script: seq<ReadOutcome>

    constructor (script: seq<ReadOutcome>)
      ensures this.script == script
    {
      this.script := script;
    }

    /** `read(&mut buf)`: the bytes go to the front of `buf`, the rest of
        `buf` is untouched. */
    method Read(buf: array<byte>) returns (r: IoResult)
      modifies this, buf
      ensures r == ReadStep(old(script), buf.Length).result
      ensures script == ReadStep(old(script), buf.Length).rest
      ensures r.ReadOk? ==> r.n <= buf.Length && buf[..r.n] == ReadStep(old(script), buf.Length).bytes
      ensures r.ReadOk? ==> buf[r.n..] == old(buf[r.n..])
      ensures !r.ReadOk? ==> buf[..] == old(buf[..])
    {
      var s := ReadStep(script, buf.Length);
      r := s.result;
      script := s.rest;
      if r.ReadOk? {
        var bytes := s.bytes;
        forall i | 0 <= i < |bytes| {
          buf[i] := bytes[i];
        }
      }
    }
  }

  /** How the loop ends: its result and what the reader has left. */
  datatype LoopEnd = LoopEnd(result: Result<string, string>, rest: seq<ReadOutcome>)

  /** Output already accumulated in front of how the rest of the loop ends;
      an error discards it. */
  function Prepend(prefix: string, e: LoopEnd): (p: LoopEnd)
    ensures p.rest == e.rest
    ensures e.result.Ok? ==> p.result == Ok(prefix + e.result.value)
    ensures e.result.Err? ==> p.result == e.result
  {
    if e.result.Ok? then LoopEnd(Ok(prefix + e.result.value), e.rest) else e
  }

  lemma PrependNothing(e: LoopEnd)
    ensures Prepend("", e) == e
  {
    if e.result.Ok? {
      assert "" + e.result.value == e.result.value;
    }
  }

  lemma PrependTwice(a: string, b: string, e: LoopEnd)
    ensures Prepend(a, Prepend(b, e)) == Prepend(a + b, e)
  {
    if e.result.Ok? {
      assert a + (b + e.result.value) == (a + b) + e.result.value;
    }
  }

  /** The loop of `read_output`, one read at a time: stop on 0 bytes, after a
      chunk shorter than the buffer, or on `WouldBlock`; continue after a full
      buffer; any other error ends it with "Read error: ...". */
  function ReadLoop(script: seq<ReadOutcome>, decode: seq<byte> -> string): LoopEnd
    decreases ScriptSize(script)
  {
    var s := ReadStep(script, BufferSize);
    match s.result
    case ReadOk(n) =>
      if n == 0 then LoopEnd(Ok(""), s.rest)
      else if n < BufferSize then LoopEnd(Ok(decode(s.bytes)), s.rest)
      else Prepend(decode(s.bytes), ReadLoop(s.rest, decode))
    case ReadWouldBlock => LoopEnd(Ok(""), s.rest)
    case ReadErr(m) => LoopEnd(Err("Read error: " + m), s.rest)
  }

  /** `ProcessManager::read_output`: the reader is left where `ReadLoop`
      leaves it and the result is the one `ReadLoop` gives. */
  method ReadOutput(reader: ScriptedReader, decode: seq<byte> -> string) returns (r: Result<string, string>)
    modifies reader
    ensures LoopEnd(r, reader.script) == ReadLoop(old(reader.script), decode)
  {
    ghost var initial := reader.script;
    var buffer := new byte[BufferSize](_ => 0);
    var output := "";
    PrependNothing(ReadLoop(initial, decode));
    while true
      invariant fresh(buffer) && buffer.Length == BufferSize
      invariant ReadLoop(initial, decode) == Prepend(output, ReadLoop(reader.script, decode))
      decreases ScriptSize(reader.script)
    {
      ghost var before := reader.script;
      var res := reader.Read(buffer);
      match res
      case ReadOk(n) =>
        if n == 0 {
          assert output + "" == output;
          break;
        }
        var chunk := decode(buffer[..n]);
        PrependTwice(output, chunk, ReadLoop(reader.script, decode));
        output := output + chunk;
        if n < buffer.Length {
          break;
        }
      case ReadWouldBlock =>
        assert output + "" == output;
        break;
      case ReadErr(m) =>
        return Err("Read error: " + m);
    }
    return Ok(output);
  }

  // ---------------------------------------------------------------------------
  // What the loop computes

  /** The script in which each block is one read's worth of data. */
  function FullReadScript(blocks: seq<seq<byte>>): (script: seq<ReadOutcome>)
    ensures |script| == |blocks|
    ensures forall i :: 0 <= i < |blocks| ==> script[i] == Data(blocks[i])
  {
    if |blocks| == 0 then [] else [Data(blocks[0])] + FullReadScript(blocks[1..])
  }

  /** The decoded blocks, concatenated in read order. */
  function DecodeAll(blocks: seq<seq<byte>>, decode: seq<byte> -> string): string
  {
    if |blocks| == 0 then "" else decode(blocks[0]) + DecodeAll(blocks[1..], decode)
  }

  predicate FullBlocks(blocks: seq<seq<byte>>)
  {
    forall i :: 0 <= i < |blocks| ==> |blocks[i]| == BufferSize
  }

  /** Full reads accumulate: after any number of reads that fill the buffer,
      the output is their decoded chunks in order, followed by whatever the
      rest of the loop produces (or the rest's error alone). */
  lemma {:induction false} FullReadsAccumulate(blocks: seq<seq<byte>>, tail: seq<ReadOutcome>, decode: seq<byte> -> string)
    requires FullBlocks(blocks)
    ensures ReadLoop(FullReadScript(blocks) + tail, decode) == Prepend(DecodeAll(blocks, decode), ReadLoop(tail, decode))
    decreases |blocks|
  {
    if |blocks| == 0 {
      assert FullReadScript(blocks) + tail == tail;
      PrependNothing(ReadLoop(tail, decode));
    } else {
      var script := FullReadScript(blocks) + tail;
      var rest := FullReadScript(blocks[1..]) + tail;
      assert script[0] == Data(blocks[0]);
      assert script[1..] == rest;
      assert FullBlocks(blocks[1..]) by {
        forall i | 0 <= i < |blocks| - 1 ensures |blocks[1..][i]| == BufferSize {
          assert blocks[1..][i] == blocks[i + 1];
        }
      }
      FullReadsAccumulate(blocks[1..], tail, decode);
      assert ReadStep(script, BufferSize) == Step(ReadOk(BufferSize), blocks[0], rest);
      PrependTwice(decode(blocks[0]), DecodeAll(blocks[1..], decode), ReadLoop(tail, decode));
    }
  }

  /** End of file ends the loop with the output read so far: when the reader
      is exhausted, and when a read returns 0 bytes, which leaves the rest of
      the script unread. */
  lemma ExhaustedKeepsOutput(blocks: seq<seq<byte>>, decode: seq<byte> -> string)
    requires FullBlocks(blocks)
    ensures ReadLoop(FullReadScript(blocks), decode) == LoopEnd(Ok(DecodeAll(blocks, decode)), [])
  {
    FullReadsAccumulate(blocks, [], decode);
    assert FullReadScript(blocks) + [] == FullReadScript(blocks);
    assert DecodeAll(blocks, decode) + "" == DecodeAll(blocks, decode);
  }

  lemma EndOfFileKeepsOutput(blocks: seq<seq<byte>>, tail: seq<ReadOutcome>, decode: seq<byte> -> string)
    requires FullBlocks(blocks)
    ensures ReadLoop(FullReadScript(blocks) + [Data([])] + tail, decode) == LoopEnd(Ok(DecodeAll(blocks, decode)), tail)
  {
    FullReadsAccumulate(blocks, [Data([])] + tail, decode);
    assert FullReadScript(blocks) + [Data([])] + tail == FullReadScript(blocks) + ([Data([])] + tail);
    assert ([Data([])] + tail)[1..] == tail;
    assert DecodeAll(blocks, decode) + "" == DecodeAll(blocks, decode);
  }

  /** A short read is appended and ends the loop; the bytes after it stay
      with the reader. */
  lemma ShortReadEndsLoop(blocks: seq<seq<byte>>, last: seq<byte>, tail: seq<ReadOutcome>, decode: seq<byte> -> string)
    requires FullBlocks(blocks) && 0 < |last| < BufferSize
    ensures ReadLoop(FullReadScript(blocks) + [Data(last)] + tail, decode) ==
              LoopEnd(Ok(DecodeAll(blocks, decode) + decode(last)), tail)
  {
    FullReadsAccumulate(blocks, [Data(last)] + tail, decode);
    assert FullReadScript(blocks) + [Data(last)] + tail == FullReadScript(blocks) + ([Data(last)] + tail);
    assert ([Data(last)] + tail)[1..] == tail;
  }

  /** `WouldBlock` ends the loop successfully with the output read so far. */
  lemma WouldBlockKeepsOutput(blocks: seq<seq<byte>>, tail: seq<ReadOutcome>, decode: seq<byte> -> string)
    requires FullBlocks(blocks)
    ensures ReadLoop(FullReadScript(blocks) + [WouldBlock] + tail, decode) == LoopEnd(Ok(DecodeAll(blocks, decode)), tail)
  {
    FullReadsAccumulate(blocks, [WouldBlock] + tail, decode);
    assert FullReadScript(blocks) + [WouldBlock] + tail == FullReadScript(blocks) + ([WouldBlock] + tail);
    assert ([WouldBlock] + tail)[1..] == tail;
    assert DecodeAll(blocks, decode) + "" == DecodeAll(blocks, decode);
  }

  /** Any other error discards the output read so far. */
  lemma ErrorDiscardsOutput(blocks: seq<seq<byte>>, m: string, tail: seq<ReadOutcome>, decode: seq<byte> -> string)
    requires FullBlocks(blocks)
    ensures ReadLoop(FullReadScript(blocks) + [Failure(m)] + tail, decode) == LoopEnd(Err("Read error: " + m), tail)
  {
    var rest := [Failure(m)] + tail;
    assert rest[0] == Failure(m) && rest[1..] == tail;
    assert ReadLoop(rest, decode).result.Err?;
    FullReadsAccumulate(blocks, rest, decode);
    assert FullReadScript(blocks) + [Failure(m)] + tail == FullReadScript(blocks) + rest;
  }

  /** Pending data longer than the buffer is taken 4096 bytes at a time: no
      read contributes more than the buffer holds. */
  lemma LongDataIsSplit(bytes: seq<byte>, tail: seq<ReadOutcome>, decode: seq<byte> -> string)
    requires |bytes| > BufferSize
    ensures ReadLoop([Data(bytes)] + tail, decode) ==
              Prepend(decode(bytes[..BufferSize]), ReadLoop([Data(bytes[BufferSize..])] + tail, decode))
  {
    assert ([Data(bytes)] + tail)[0] == Data(bytes) && ([Data(bytes)] + tail)[1..] == tail;
  }
}
