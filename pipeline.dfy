/**
 * The stages together: what a line poll built on the byte and character stages
 * returns for a few typical shapes of appended text, and what the event rules
 * make of a delivered line.
 */
module Pipeline {
  import opened PollSpec
  import Utf8
  import Events

  /** Appended bytes that are the whole encoding of `cs`, delivered by one read. */
  lemma OneRead(cs: seq<char>, script: seq<ReadOutcome>)
    requires cs != [] && script != [] && script[0] == Filled(Utf8.Encode(cs))
    ensures Ready(script) && CharBatch(script) == Ok(cs) && AfterBatch(script) == script[1..]
  {
    Utf8.DecodeEncode(cs);
  }

  /**
   * A line appended in one write and read in one piece: the line poll returns
   * it, joined to whatever was accumulated before, and empties its accumulator.
   */
  lemma WholeLine(acc: string, line: string, script: seq<ReadOutcome>)
    requires '\n' !in line
    requires script == [Filled(Utf8.Encode(line + ['\n']))]
    ensures LineReady(CharBatches(script))
    ensures PollLines(acc, CharBatches(script)) == LineStep(Ok([acc + line]), [], 1)
  {
    OneRead(line + ['\n'], script);
    assert CharBatches(script) == [Ok(line + ['\n'])];
    FeedOneLine(acc, line);
  }

  /** A read of zero bytes is slept over: the poll returns what the next reads give. */
  lemma EmptyReadSkipped(script: seq<ReadOutcome>)
    requires script != [] && script[0] == Filled([]) && Ready(script[1..])
    ensures Ready(script) && CharBatch(script) == CharBatch(script[1..])
    ensures AfterBatch(script) == AfterBatch(script[1..])
  {
  }

  /**
   * A line whose first part arrives before the writer has finished it: the
   * part is kept in the accumulator across an empty read, and the line comes
   * back whole once its end and the '\n' arrive.
   */
  lemma LineInTwoParts(first: string, second: string, script: seq<ReadOutcome>)
    requires first != [] && '\n' !in first && '\n' !in second
    requires script == [Filled(Utf8.Encode(first)), Filled([]), Filled(Utf8.Encode(second + ['\n']))]
    ensures LineReady(CharBatches(script))
    ensures PollLines([], CharBatches(script)) == LineStep(Ok([first + second]), [], 2)
  {
    var rest := script[1..];
    OneRead(second + ['\n'], rest[1..]);
    EmptyReadSkipped(rest);
    assert AfterBatch(rest) == [];
    assert CharBatches(rest) == [Ok(second + ['\n'])];
    OneRead(first, script);
    var batches := CharBatches(script);
    assert batches == [Ok(first), Ok(second + ['\n'])];
    FeedWithoutNewline([], first);
    assert [] + first == first;
    FeedOneLine(first, second);
    PollLinesUnfold([], batches);
    assert batches[1..] == [Ok(second + ['\n'])];
    PollLinesUnfold(first, batches[1..]);
  }

  /**
   * The line a timestamped "joined area" log entry arrives as, followed by
   * '\n': polled and then processed, it yields exactly one JoinedArea event.
   */
  lemma JoinedAreaEndToEnd(head: string, location: string, script: seq<ReadOutcome>)
    requires ']' !in head && '\n' !in head && '\n' !in location
    requires script == [Filled(Utf8.Encode(head + "] " + Events.JoinedAreaPrefix + location + "." + ['\n']))]
    ensures LineReady(CharBatches(script))
    ensures var step := PollLines([], CharBatches(script));
      step.result.Ok? && |step.result.value| == 1 &&
      Events.ProcessLine(step.result.value[0]) == [(Events.JoinedArea(location), Events.DefaultInfo)]
  {
    var line := head + "] " + Events.JoinedAreaPrefix + location + ".";
    assert '\n' !in line;
    WholeLine([], line, script);
    assert [] + line == line;
    Events.ProcessStampedJoinedArea(head, location);
  }
}
