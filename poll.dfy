/**
 * The three polling stages of src/io_watch/poll.rs as objects.  Each stage owns
 * the one below it: StringLinePoll -> CharPoll -> BytePoll -> the stream.  Every
 * `WaitAndRead` is proved to return what the matching function of PollSpec says,
 * and to leave the stream where that function says.
 */
module Poll {
  import opened PollSpec
  import Utf8

  /**
   * The stream a BytePoll reads from (`read_from: T`).  Its answers to successive
   * calls of `read` are fixed in advance by `script`; once the script is used up
   * the stream has nothing new, and every read returns zero bytes, as a file
   * does at its end until something is appended.
   */
  class ScriptedReader {
    var script: seq<ReadOutcome>

    constructor (script: seq<ReadOutcome>)
      ensures this.script == script
    {
      this.script := script;
    }

    /** `Read::read(&mut buf[..])`: writes the next answer's bytes to the front of `buf`. */
    method Read(buf: array<Utf8.byte>) returns (r: Result<nat>)
      requires script != [] && script[0].Filled? ==> |script[0].data| <= buf.Length
      modifies this, buf
      ensures script == if old(script) == [] then [] else old(script)[1..]
      ensures old(script) == [] ==> r == Ok(0) && buf[..] == old(buf[..])
      ensures old(script) != [] && old(script)[0].Failed? ==> r == Err(IoError) && buf[..] == old(buf[..])
      ensures old(script) != [] && old(script)[0].Filled? ==>
        r == Ok(|old(script)[0].data|) &&
        buf[..r.value] == old(script)[0].data && buf[r.value..] == old(buf[r.value..])
    {
      if script == [] {
        return Ok(0);
      }
      var outcome := script[0];
      script := script[1..];
      match outcome
      case Failed =>
        r := Err(IoError);
      case Filled(data) =>
        forall i | 0 <= i < |data| {
          buf[i] := data[i];
        }
        r := Ok(|data|);
    }
  }

  /** Polls a stream for appended bytes, reading into a fixed scratch buffer. */
  class BytePoll {
    const reader: ScriptedReader
    /** Milliseconds to sleep after a read that found nothing new. */
    const waitDelay: nat
    const buffer: array<Utf8.byte>
    /** Total time slept between empty reads, in milliseconds; stands for the calls of `sleep`. */
    ghost var slept: nat

    /** `BytePoll::new`: the scratch buffer is `bufferLen` zero bytes.  It cannot fail. */
    constructor (readFrom: ScriptedReader, waitDelay: nat, bufferLen: nat)
      ensures reader == readFrom && this.waitDelay == waitDelay && slept == 0
      ensures fresh(buffer) && buffer.Length == bufferLen
      ensures forall i :: 0 <= i < bufferLen ==> buffer[i] == 0
    {
      reader := readFrom;
      this.waitDelay := waitDelay;
      buffer := new Utf8.byte[bufferLen](_ => 0);
      slept := 0;
    }

    /**
     * Reads until a read fails (returned at once) or delivers bytes (returned as
     * the first `n` bytes of the scratch buffer); a read of zero bytes is
     * followed by a sleep of `waitDelay` and another read.
     */
    method WaitAndRead() returns (r: Result<seq<Utf8.byte>>)
      requires Fits(reader.script, buffer.Length) && Ready(reader.script)
      modifies this, reader, buffer
      ensures Fits(reader.script, buffer.Length)
      ensures r == ByteBatch(old(reader.script))
      ensures reader.script == AfterBatch(old(reader.script))
      ensures slept == old(slept) + FirstReady(old(reader.script)) * waitDelay
      ensures r.Ok? ==> 0 < |r.value| <= buffer.Length && r.value == buffer[..|r.value|]
    {
      ghost var script := reader.script;
      ghost var k := FirstReady(script);
      ghost var i := 0;
      while true
        invariant 0 <= i <= k
        invariant reader.script == script[i..]
        invariant Fits(reader.script, buffer.Length)
        invariant slept == old(slept) + i * waitDelay
        decreases |reader.script|
      {
        var n := reader.Read(buffer);
        if n.Err? {
          return Err(n.error);
        }
        if n.value > 0 {
          return Ok(buffer[..n.value]);
        }
        assert i < k;
        slept := slept + waitDelay;
        i := i + 1;
      }
    }
  }

  /** Polls for appended characters: one byte poll, decoded as UTF-8 in one piece. */
  class CharPoll {
    const bytePoll: BytePoll

    /** `CharPoll::new`: builds the byte stage below.  It cannot fail. */
    constructor New(readFrom: ScriptedReader, waitDelay: nat, bufferLen: nat)
      ensures fresh(bytePoll) && fresh(bytePoll.buffer)
      ensures bytePoll.reader == readFrom && bytePoll.waitDelay == waitDelay
      ensures bytePoll.buffer.Length == bufferLen && bytePoll.slept == 0
    {
      bytePoll := new BytePoll(readFrom, waitDelay, bufferLen);
    }

    /** `From<T> for CharPoll<T>`: wraps an existing byte stage. */
    constructor From(bytePoll: BytePoll)
      ensures this.bytePoll == bytePoll
    {
      this.bytePoll := bytePoll;
    }

    /** The reads the stream will answer. */
    ghost function Script(): seq<ReadOutcome>
      reads bytePoll.reader
    {
      bytePoll.reader.script
    }

    ghost predicate Valid()
      reads bytePoll.reader
    {
      Fits(Script(), bytePoll.buffer.Length)
    }

    /** Fails when the byte stage fails or when its batch is not well-formed UTF-8. */
    method WaitAndRead() returns (r: Result<seq<char>>)
      requires Valid() && Ready(Script())
      modifies bytePoll, bytePoll.reader, bytePoll.buffer
      ensures Valid()
      ensures r == CharBatch(old(Script()))
      ensures Script() == AfterBatch(old(Script()))
    {
      var bytes := bytePoll.WaitAndRead();
      if bytes.Err? {
        return Err(bytes.error);
      }
      match Utf8.Decode(bytes.value)
      case None =>
        r := Err(DecodeError);
      case Some(chars) =>
        r := Ok(chars);
    }
  }

  /** Polls for appended lines, keeping an unterminated line across calls. */
  class StringLinePoll {
    const charPoll: CharPoll
    /** Characters after the last '\n' seen so far. */
    var charBuffer: seq<char>

    /** `StringLinePoll::new`: builds the character and byte stages below, with an empty accumulator. */
    constructor New(readFrom: ScriptedReader, waitDelay: nat, bufferLen: nat)
      ensures fresh(charPoll) && fresh(charPoll.bytePoll) && fresh(charPoll.bytePoll.buffer)
      ensures charPoll.bytePoll.reader == readFrom && charPoll.bytePoll.waitDelay == waitDelay
      ensures charPoll.bytePoll.buffer.Length == bufferLen
      ensures charBuffer == []
    {
      charPoll := new CharPoll.New(readFrom, waitDelay, bufferLen);
      charBuffer := [];
    }

    /** `From<T> for StringLinePoll<T>`: wraps an existing character stage, with an empty accumulator. */
    constructor From(charPoll: CharPoll)
      ensures this.charPoll == charPoll && charBuffer == []
    {
      this.charPoll := charPoll;
      charBuffer := [];
    }

    /** The reads the stream will answer. */
    ghost function Script(): seq<ReadOutcome>
      reads charPoll.bytePoll.reader
    {
      charPoll.Script()
    }

    /** The accumulator never holds a '\n': each one closes a line at once. */
    ghost predicate Valid()
      reads this, charPoll.bytePoll.reader
    {
      charPoll.Valid() && '\n' !in charBuffer
    }

    /**
     * Pulls character batches and splits them on '\n' until at least one line
     * is complete; returns those lines, or the first error of the stage below.
     */
    method WaitAndRead() returns (r: Result<seq<string>>)
      requires Valid() && LineReady(CharBatches(Script()))
      modifies this, charPoll.bytePoll, charPoll.bytePoll.reader, charPoll.bytePoll.buffer
      ensures Valid()
      ensures r == PollLines(old(charBuffer), CharBatches(old(Script()))).result
      ensures charBuffer == PollLines(old(charBuffer), CharBatches(old(Script()))).buffer
      ensures CharBatches(Script()) == CharBatches(old(Script()))[PollLines(old(charBuffer), CharBatches(old(Script()))).used..]
    {
      ghost var batches := CharBatches(Script());
      ghost var step := PollLines(charBuffer, batches);
      ghost var n := 0;
      var lines: seq<string> := [];
      while |lines| == 0
        invariant charPoll.Valid() && '\n' !in charBuffer
        invariant n <= |batches| && CharBatches(Script()) == batches[n..]
        invariant lines == [] ==>
          LineReady(batches[n..]) &&
          step.result == PollLines(charBuffer, batches[n..]).result &&
          step.buffer == PollLines(charBuffer, batches[n..]).buffer &&
          step.used == n + PollLines(charBuffer, batches[n..]).used
        invariant lines != [] ==> step == LineStep(Ok(lines), charBuffer, n)
        decreases |Script()|
      {
        CharBatchesUnfold(Script());
        var batch := charPoll.WaitAndRead();
        ghost var acc := charBuffer;
        PollLinesUnfold(acc, batches[n..]);
        assert batches[n..][1..] == batches[n + 1..];
        n := n + 1;
        if batch.Err? {
          return Err(batch.error);
        }
        lines := FeedBatch(batch.value);
        FeedNoNewline(acc, batch.value);
      }
      return Ok(lines);
    }

    /**
     * The `for` loop over one character batch: each '\n' closes the accumulator
     * as a line, any other character is pushed onto it.
     */
    method FeedBatch(chars: seq<char>) returns (lines: seq<string>)
      modifies this
      ensures (lines, charBuffer) == Feed(old(charBuffer), chars)
    {
      lines := [];
      for i := 0 to |chars|
        invariant (lines, charBuffer) == Feed(old(charBuffer), chars[..i])
      {
        assert chars[..i + 1][..i] == chars[..i];
        if chars[i] == '\n' {
          lines := lines + [charBuffer];
          charBuffer := [];
        } else {
          charBuffer := charBuffer + [chars[i]];
        }
      }
      assert chars[..|chars|] == chars;
    }
  }
}
