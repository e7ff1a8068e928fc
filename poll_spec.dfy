/**
 * What one `wait_and_read` call of each polling stage returns, as functions of
 * the reads the underlying stream will answer.  The classes in module Poll are
 * proved to behave as these functions say; the properties of the pipeline are
 * lemmas about the functions.
 */
module PollSpec {
  import opened Options
  import Utf8

  /** The two failures that travel up the pipeline: the stream's and the decoder's. */
  datatype PollError = IoError | DecodeError

  datatype Result<T> = Ok(value: T) | Err(error: PollError)

  /** How the stream answers one call of `read`: the bytes it wrote, or a failure. */
  datatype ReadOutcome = Filled(data: seq<Utf8.byte>) | Failed

  /** `read` never writes more bytes than the buffer it was handed can hold. */
  predicate Fits(script: seq<ReadOutcome>, capacity: nat) {
    forall i :: 0 <= i < |script| && script[i].Filled? ==> |script[i].data| <= capacity
  }

  /** A read that ends the byte stage's wait: it failed, or it delivered at least one byte. */
  predicate Decisive(o: ReadOutcome) {
    o.Failed? || |o.data| > 0
  }

  /** Some read in the script ends the wait, so the byte stage returns. */
  predicate Ready(script: seq<ReadOutcome>)
    decreases |script|
  {
    script != [] && (Decisive(script[0]) || Ready(script[1..]))
  }

  /** Index of the read that ends the wait; every read before it returned zero bytes. */
  function FirstReady(script: seq<ReadOutcome>): (k: nat)
    requires Ready(script)
    ensures k < |script| && Decisive(script[k])
    ensures forall j :: 0 <= j < k ==> script[j] == Filled([])
    decreases |script|
  {
    if Decisive(script[0]) then 0 else 1 + FirstReady(script[1..])
  }

  // ---------------------------------------------------------------------------
  // Byte stage: BytePoll::wait_and_read

  /** The result of one byte poll: the first failure or the first non-empty read. */
  function ByteBatch(script: seq<ReadOutcome>): (r: Result<seq<Utf8.byte>>)
    requires Ready(script)
    ensures r.Err? <==> script[FirstReady(script)].Failed?
    ensures r.Err? ==> r.error == IoError
    ensures r.Ok? ==> r.value != [] && Filled(r.value) in script
  {
    match script[FirstReady(script)]
    case Failed => Err(IoError)
    case Filled(data) => Ok(data)
  }

  /** The reads left unanswered after one poll: those after the read that ended it. */
  function AfterBatch(script: seq<ReadOutcome>): (rest: seq<ReadOutcome>)
    requires Ready(script)
    ensures |rest| < |script|
  {
    script[FirstReady(script) + 1..]
  }

  /** A batch is never empty and never larger than the scratch buffer. */
  lemma ByteBatchBounds(script: seq<ReadOutcome>, capacity: nat)
    requires Ready(script) && Fits(script, capacity)
    ensures ByteBatch(script).Ok? ==> 0 < |ByteBatch(script).value| <= capacity
  {
  }

  /** A failed read is returned at once: the poll stops at the first failure. */
  lemma ByteBatchStopsAtFailure(script: seq<ReadOutcome>, i: nat)
    requires i < |script| && script[i].Failed?
    requires forall j :: 0 <= j < i ==> script[j] == Filled([])
    ensures Ready(script) && FirstReady(script) == i && ByteBatch(script) == Err(IoError)
    decreases i
  {
    if i > 0 {
      ByteBatchStopsAtFailure(script[1..], i - 1);
    }
  }

  /** With a zero-length scratch buffer every read returns zero bytes: only an error ends the wait. */
  lemma ZeroCapacityOnlyFails(script: seq<ReadOutcome>)
    requires Ready(script) && Fits(script, 0)
    ensures ByteBatch(script) == Err(IoError)
  {
  }

  // ---------------------------------------------------------------------------
  // Character stage: CharPoll::wait_and_read

  /** Decodes one whole byte batch as UTF-8, passing a byte-stage error through. */
  function DecodeBatch(batch: Result<seq<Utf8.byte>>): (r: Result<seq<char>>)
    ensures r.Ok? <==> batch.Ok? && Utf8.Decode(batch.value).Some?
    ensures r.Ok? ==> Utf8.Encode(r.value) == batch.value
    ensures batch.Err? ==> r == Err(batch.error)
    ensures batch.Ok? && r.Err? ==> r.error == DecodeError
  {
    match batch
    case Err(e) => Err(e)
    case Ok(bytes) =>
      match Utf8.Decode(bytes)
      case None => Err(DecodeError)
      case Some(chars) => Utf8.EncodeDecode(bytes); Ok(chars)
  }

  /** The result of one character poll. */
  function CharBatch(script: seq<ReadOutcome>): (r: Result<seq<char>>)
    requires Ready(script)
    ensures r.Ok? <==> ByteBatch(script).Ok? && Utf8.Decode(ByteBatch(script).value).Some?
    ensures r.Ok? ==> Utf8.Encode(r.value) == ByteBatch(script).value
    ensures ByteBatch(script).Err? ==> r == Err(IoError)
  {
    DecodeBatch(ByteBatch(script))
  }

  /** A batch that ends inside a multi-byte character makes the character poll fail. */
  lemma SplitCharFails(script: seq<ReadOutcome>, cs: seq<char>, c: char, k: nat)
    requires Ready(script) && 0 < k < Utf8.Width(c)
    requires ByteBatch(script) == Ok(Utf8.Encode(cs) + Utf8.EncodeChar(c)[..k])
    ensures CharBatch(script) == Err(DecodeError)
  {
    Utf8.TruncatedCharFails(cs, c, k);
  }

  // ---------------------------------------------------------------------------
  // Line stage: the body of StringLinePoll::wait_and_read

  /**
   * The `for` loop over one character batch: a '\n' closes the accumulated
   * characters as a line and clears the accumulator; any other character is
   * appended to it.  Returns the lines closed and the new accumulator.
   */
  function Feed(acc: string, cs: seq<char>): (string_lines: (seq<string>, string))
    ensures |string_lines.0| <= |cs|
    ensures |string_lines.1| <= |acc| + |cs|
    decreases |cs|
  {
    if cs == [] then ([], acc)
    else
      var (lines, buffer) := Feed(acc, cs[..|cs| - 1]);
      if cs[|cs| - 1] == '\n' then (lines + [buffer], [])
      else (lines, buffer + [cs[|cs| - 1]])
  }

  /** Each line followed by its terminating '\n'. */
  function JoinLines(lines: seq<string>): string
    decreases |lines|
  {
    if lines == [] then []
    else JoinLines(lines[..|lines| - 1]) + lines[|lines| - 1] + ['\n']
  }

  /** Nothing is lost or invented: the old accumulator and the batch are the lines, re-terminated, and the new accumulator. */
  lemma {:induction false} FeedConserves(acc: string, cs: seq<char>)
    ensures acc + cs == JoinLines(Feed(acc, cs).0) + Feed(acc, cs).1
    decreases |cs|
  {
    if cs != [] {
      var init := cs[..|cs| - 1];
      FeedConserves(acc, init);
      assert acc + cs == (acc + init) + [cs[|cs| - 1]];
      var (lines, buffer) := Feed(acc, init);
      if cs[|cs| - 1] == '\n' {
        assert (lines + [buffer])[..|lines|] == lines;
      }
    }
  }

  /** One line is closed per '\n' in the batch. */
  lemma {:induction false} FeedCountsNewlines(acc: string, cs: seq<char>)
    ensures |Feed(acc, cs).0| == multiset(cs)['\n']
    decreases |cs|
  {
    if cs != [] {
      var init := cs[..|cs| - 1];
      FeedCountsNewlines(acc, init);
      assert cs == init + [cs[|cs| - 1]];
    }
  }

  /** When the accumulator holds no '\n', neither the lines nor the new accumulator do. */
  lemma {:induction false} FeedNoNewline(acc: string, cs: seq<char>)
    requires '\n' !in acc
    ensures '\n' !in Feed(acc, cs).1
    ensures forall i :: 0 <= i < |Feed(acc, cs).0| ==> '\n' !in Feed(acc, cs).0[i]
    decreases |cs|
  {
    if cs != [] {
      FeedNoNewline(acc, cs[..|cs| - 1]);
    }
  }

  /** A batch without '\n' closes no line and only grows the accumulator. */
  lemma {:induction false} FeedWithoutNewline(acc: string, cs: seq<char>)
    requires '\n' !in cs
    ensures Feed(acc, cs) == ([], acc + cs)
    decreases |cs|
  {
    if cs != [] {
      var init := cs[..|cs| - 1];
      var last := cs[|cs| - 1];
      assert cs == init + [last];
      assert last in cs && last != '\n';
      FeedWithoutNewline(acc, init);
      assert (acc + init) + [last] == acc + cs;
    } else {
      assert acc + cs == acc;
    }
  }

  /** One whole line arriving at once: it is returned, and the accumulator ends empty. */
  lemma FeedOneLine(acc: string, line: string)
    requires '\n' !in line
    ensures Feed(acc, line + ['\n']) == ([acc + line], [])
  {
    var cs := line + ['\n'];
    assert cs[..|cs| - 1] == line;
    FeedWithoutNewline(acc, line);
    var empty: seq<string> := [];
    assert empty + [acc + line] == [acc + line];
  }

  /**
   * The batches the character stage delivers, call after call, before it would
   * block for good (the rest of the script holds no read that ends a wait).
   */
  function CharBatches(script: seq<ReadOutcome>): (batches: seq<Result<seq<char>>>)
    ensures |batches| <= |script|
    decreases |script|
  {
    if Ready(script) then [CharBatch(script)] + CharBatches(AfterBatch(script)) else []
  }

  /** The first batch delivered is the next poll's, the others come after it. */
  lemma CharBatchesUnfold(script: seq<ReadOutcome>)
    requires CharBatches(script) != []
    ensures Ready(script)
    ensures CharBatches(script)[0] == CharBatch(script)
    ensures CharBatches(script)[1..] == CharBatches(AfterBatch(script))
  {
  }

  /**
   * Some batch of the stage below fails or holds a '\n', so the line poll
   * returns.  The line stage is generic over its character source; it sees
   * only this sequence of batch results.
   */
  predicate LineReady(batches: seq<Result<seq<char>>>)
    decreases |batches|
  {
    batches != [] && (batches[0].Err? || '\n' in batches[0].value || LineReady(batches[1..]))
  }

  /** The outcome of one line poll: its result, the new accumulator, and how many batches it pulled. */
  datatype LineStep = LineStep(result: Result<seq<string>>, buffer: string, used: nat)

  /**
   * StringLinePoll::wait_and_read: pull character batches, feeding each to the
   * accumulator, while no line has been closed; an error of the stage below is
   * returned with the accumulator as it stands.
   */
  function PollLines(acc: string, batches: seq<Result<seq<char>>>): (step: LineStep)
    requires LineReady(batches)
    ensures 0 < step.used <= |batches|
    ensures step.result.Ok? ==> step.result.value != []
    decreases |batches|
  {
    match batches[0]
    case Err(e) => LineStep(Err(e), acc, 1)
    case Ok(cs) =>
      var (lines, buffer) := Feed(acc, cs);
      if lines != [] then LineStep(Ok(lines), buffer, 1)
      else
        FeedCountsNewlines(acc, cs);
        var step := PollLines(buffer, batches[1..]);
        LineStep(step.result, step.buffer, step.used + 1)
  }

  /** The three ways one pass of the `while` loop can go. */
  lemma PollLinesUnfold(acc: string, batches: seq<Result<seq<char>>>)
    requires LineReady(batches)
    ensures batches[0].Err? ==> PollLines(acc, batches) == LineStep(Err(batches[0].error), acc, 1)
    ensures batches[0].Ok? && Feed(acc, batches[0].value).0 != [] ==>
      PollLines(acc, batches) == LineStep(Ok(Feed(acc, batches[0].value).0), Feed(acc, batches[0].value).1, 1)
    ensures batches[0].Ok? && Feed(acc, batches[0].value).0 == [] ==>
      LineReady(batches[1..]) &&
      PollLines(acc, batches).result == PollLines(Feed(acc, batches[0].value).1, batches[1..]).result &&
      PollLines(acc, batches).buffer == PollLines(Feed(acc, batches[0].value).1, batches[1..]).buffer &&
      PollLines(acc, batches).used == 1 + PollLines(Feed(acc, batches[0].value).1, batches[1..]).used
  {
    if batches[0].Ok? {
      FeedCountsNewlines(acc, batches[0].value);
    }
  }

  /** All characters of the batches the line poll pulls before it returns. */
  function PolledChars(batches: seq<Result<seq<char>>>): string
    requires LineReady(batches)
    decreases |batches|
  {
    match batches[0]
    case Err(_) => []
    case Ok(cs) => if '\n' in cs then cs else cs + PolledChars(batches[1..])
  }

  /** The characters of the successful batches, one batch after the other. */
  function OkChars(batches: seq<Result<seq<char>>>): string
    decreases |batches|
  {
    if batches == [] then []
    else (if batches[0].Ok? then batches[0].value else []) + OkChars(batches[1..])
  }

  /**
   * The characters the line poll pulls are those of the batches it uses.  Every
   * batch but the last was successful and held no '\n'; the last one is the
   * error returned, or a successful batch holding a '\n'.
   */
  lemma PollLinesPulled(acc: string, batches: seq<Result<seq<char>>>)
    requires LineReady(batches)
    ensures var step := PollLines(acc, batches);
      PolledChars(batches) == OkChars(batches[..step.used]) &&
      (step.result.Err? ==> batches[step.used - 1] == Err(step.result.error)) &&
      (step.result.Ok? ==> batches[step.used - 1].Ok? && '\n' in batches[step.used - 1].value) &&
      forall j :: 0 <= j < step.used - 1 ==> batches[j].Ok? && '\n' !in batches[j].value
  {
    PollLinesPulledChars(acc, batches);
    PollLinesUsedBatches(acc, batches);
  }

  lemma {:induction false} PollLinesPulledChars(acc: string, batches: seq<Result<seq<char>>>)
    requires LineReady(batches)
    ensures PolledChars(batches) == OkChars(batches[..PollLines(acc, batches).used])
    decreases |batches|
  {
    assert batches[..1][1..] == [];
    if batches[0].Ok? {
      var cs := batches[0].value;
      FeedCountsNewlines(acc, cs);
      if Feed(acc, cs).0 == [] {
        PollLinesStep(acc, batches);
        var rest := batches[1..];
        var used := PollLines(Feed(acc, cs).1, rest).used;
        PollLinesPulledChars(Feed(acc, cs).1, rest);
        assert PollLines(acc, batches).used == used + 1;
        assert batches[..used + 1][1..] == rest[..used];
      } else {
        assert cs + [] == cs;
      }
    }
  }

  lemma {:induction false} PollLinesUsedBatches(acc: string, batches: seq<Result<seq<char>>>)
    requires LineReady(batches)
    ensures var step := PollLines(acc, batches);
      (step.result.Err? ==> batches[step.used - 1] == Err(step.result.error)) &&
      (step.result.Ok? ==> batches[step.used - 1].Ok? && '\n' in batches[step.used - 1].value) &&
      forall j :: 0 <= j < step.used - 1 ==> batches[j].Ok? && '\n' !in batches[j].value
    decreases |batches|
  {
    if batches[0].Ok? {
      var cs := batches[0].value;
      FeedCountsNewlines(acc, cs);
      if Feed(acc, cs).0 == [] {
        PollLinesStep(acc, batches);
        var rest := batches[1..];
        var inner := PollLines(Feed(acc, cs).1, rest);
        PollLinesUsedBatches(Feed(acc, cs).1, rest);
        assert PollLines(acc, batches).used == inner.used + 1;
        assert PollLines(acc, batches).result == inner.result;
        assert forall j :: 0 < j <= inner.used ==> batches[j] == rest[j - 1];
      }
    }
  }

  /** One step of the line poll after a successful batch that closes no line. */
  lemma PollLinesStep(acc: string, batches: seq<Result<seq<char>>>)
    requires LineReady(batches) && batches[0].Ok? && Feed(acc, batches[0].value).0 == []
    ensures LineReady(batches[1..])
    ensures acc + batches[0].value == Feed(acc, batches[0].value).1
    ensures PolledChars(batches) == batches[0].value + PolledChars(batches[1..])
  {
    FeedCountsNewlines(acc, batches[0].value);
    FeedWithoutNewline(acc, batches[0].value);
  }

  /**
   * Conservation: the old accumulator followed by every character pulled equals
   * the returned lines, each re-terminated by '\n', followed by the new
   * accumulator.  On an error no line is lost: everything pulled is kept.
   */
  lemma {:induction false} PollLinesConserves(acc: string, batches: seq<Result<seq<char>>>)
    requires LineReady(batches)
    ensures PollLines(acc, batches).result.Ok? ==>
      acc + PolledChars(batches) == JoinLines(PollLines(acc, batches).result.value) + PollLines(acc, batches).buffer
    ensures PollLines(acc, batches).result.Err? ==>
      acc + PolledChars(batches) == PollLines(acc, batches).buffer
    decreases |batches|
  {
    if batches[0].Err? {
      assert acc + [] == acc;
    } else if Feed(acc, batches[0].value).0 == [] {
      var buffer := Feed(acc, batches[0].value).1;
      SkipConserves(acc, batches);
      PollLinesConserves(buffer, batches[1..]);
    } else {
      CloseConserves(acc, batches);
    }
  }

  /** A first batch that closes no line: the rest of the poll starts from the grown accumulator. */
  lemma SkipConserves(acc: string, batches: seq<Result<seq<char>>>)
    requires LineReady(batches) && batches[0].Ok? && Feed(acc, batches[0].value).0 == []
    ensures LineReady(batches[1..])
    ensures var buffer := Feed(acc, batches[0].value).1;
      acc + PolledChars(batches) == buffer + PolledChars(batches[1..]) &&
      PollLines(acc, batches).result == PollLines(buffer, batches[1..]).result &&
      PollLines(acc, batches).buffer == PollLines(buffer, batches[1..]).buffer
  {
    var cs := batches[0].value;
    var buffer := Feed(acc, cs).1;
    PollLinesStep(acc, batches);
    var p := PolledChars(batches[1..]);
    assert acc + PolledChars(batches) == buffer + p by {
      assert acc + (cs + p) == (acc + cs) + p;
    }
    assert PollLines(acc, batches).result == PollLines(buffer, batches[1..]).result &&
      PollLines(acc, batches).buffer == PollLines(buffer, batches[1..]).buffer by {
      PollLinesUnfold(acc, batches);
    }
  }

  /** A first batch that closes a line: the poll ends with it. */
  lemma CloseConserves(acc: string, batches: seq<Result<seq<char>>>)
    requires LineReady(batches) && batches[0].Ok? && Feed(acc, batches[0].value).0 != []
    ensures PollLines(acc, batches).result == Ok(Feed(acc, batches[0].value).0)
    ensures acc + PolledChars(batches) == JoinLines(PollLines(acc, batches).result.value) + PollLines(acc, batches).buffer
  {
    var cs := batches[0].value;
    FeedCountsNewlines(acc, cs);
    FeedConserves(acc, cs);
    PollLinesUnfold(acc, batches);
    assert '\n' in cs by {
      assert multiset(cs)['\n'] > 0;
    }
  }

  /** The number of lines returned is the number of '\n' among the characters pulled. */
  lemma {:induction false} PollLinesCount(acc: string, batches: seq<Result<seq<char>>>)
    requires LineReady(batches)
    ensures PollLines(acc, batches).result.Ok? ==>
      |PollLines(acc, batches).result.value| == multiset(PolledChars(batches))['\n']
    decreases |batches|
  {
    if batches[0].Ok? {
      var cs := batches[0].value;
      FeedCountsNewlines(acc, cs);
      if Feed(acc, cs).0 == [] {
        PollLinesStep(acc, batches);
        PollLinesCount(Feed(acc, cs).1, batches[1..]);
      }
    }
  }

  /** No returned line and no new accumulator contains '\n', given the accumulator did not. */
  lemma {:induction false} PollLinesNoNewline(acc: string, batches: seq<Result<seq<char>>>)
    requires LineReady(batches) && '\n' !in acc
    ensures '\n' !in PollLines(acc, batches).buffer
    ensures PollLines(acc, batches).result.Ok? ==>
      forall i :: 0 <= i < |PollLines(acc, batches).result.value| ==> '\n' !in PollLines(acc, batches).result.value[i]
    decreases |batches|
  {
    if batches[0].Ok? {
      var cs := batches[0].value;
      FeedNoNewline(acc, cs);
      FeedCountsNewlines(acc, cs);
      if Feed(acc, cs).0 == [] {
        PollLinesStep(acc, batches);
        PollLinesNoNewline(Feed(acc, cs).1, batches[1..]);
      }
    }
  }
}
