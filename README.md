# Log tailing pipeline and joined-area events, in Dafny

This project models the core of a tool that tails a growing Path of Exile client
log and turns new lines into game events:

- the three polling stages of `src/io_watch/poll.rs`. `BytePoll` re-reads a
  stream into a fixed scratch buffer until new bytes appear. `CharPoll` decodes
  one such byte batch as UTF-8. `StringLinePoll` keeps an accumulator of
  characters across calls and hands out complete lines, split on `'\n'`;
- the two pieces of line processing that `register_poe_events` in
  `src/events/mod.rs` installs. The filter cuts a line after its first `']'` and
  trims it. The rule `^: You have entered (?P<location>.*)\.$` produces
  `JoinedArea(location)`.

Modules:

- `Options` (`options.dfy`): the `Option` datatype.
- `Utf8` (`utf8.dfy`): UTF-8 as in RFC 3629. The encoder follows the bit layout
  of RFC 3629 section 3 and the decoder the byte syntax of RFC 3629 section 4. The round trips are
  proved in both directions, so the decoder accepts exactly the encodings of
  character sequences. That excludes overlong forms, surrogates and anything
  above U+10FFFF.
- `PollSpec` (`poll_spec.dfy`): what one `wait_and_read` of each stage returns,
  as functions of the reads the stream will answer (`ByteBatch`, `CharBatch`,
  `PollLines`). It also holds the properties of those functions as lemmas: the
  bounds, the error paths, conservation of characters and the line count.
- `Poll` (`poll.dfy`): the stages as classes with their fields
  (`ScriptedReader`, `BytePoll`, `CharPoll`, `StringLinePoll`). Each
  `WaitAndRead` keeps the source's loop. It is proved to return what the
  matching `PollSpec` function says, and to leave the stream and the
  accumulator in the state that function says.
- `Events` (`events.dfy`): the filter (`StripPrefix`), the joined-area rule
  (`MatchJoinedArea`) and one line through both (`ProcessLine`).
- `Pipeline` (`pipeline.dfy`): the stages together on typical shapes of
  appended text, and a log line from the stream's bytes to its event.

The stream is a `ScriptedReader`. Its answers to successive `read` calls are
fixed in advance: some bytes, or a failure. Once the script is used up, every
read returns zero bytes, as a file does at its end. Every scripted answer fits
the buffer it is read into, as `Read::read` promises. Sleeping is a ghost
counter `slept` that grows by `wait_delay` for every empty read.

## Model

| member | source | states |
|---|---|---|
| Utf8.Decode | src/io_watch/poll.rs:89 | `String::from_utf8(..).chars()`: a decoded batch has between a quarter of the byte count and the byte count in characters, and empty bytes decode to no characters; what it accepts and returns is stated by `Utf8.DecodeEncode`, `Utf8.EncodeDecode` and `Utf8.DecodeSucceedsIff` |
| Utf8.LeadLength | src/io_watch/poll.rs:89 | the length of the UTF-8 character at the front of the bytes is a well-formed RFC 3629 section 4 character; when it is 0, no prefix of 1 to 4 bytes is one |
| Utf8.EncodeCharWellFormed | src/io_watch/poll.rs:89 | the RFC 3629 section 3 encoding of a character is a well-formed RFC 3629 section 4 character that decodes back to it |
| Utf8.ScalarEncodes | src/io_watch/poll.rs:89 | every well-formed UTF-8 character is the encoding of the scalar it decodes to, so no overlong form is accepted |
| Utf8.NoProperPrefix | src/io_watch/poll.rs:89 | UTF-8 is prefix-free: no proper prefix of a character's bytes is itself a character |
| Utf8.DecodeEncode | src/io_watch/poll.rs:89 | decoding the encoding of any characters gives them back |
| Utf8.EncodeDecode | src/io_watch/poll.rs:89 | a successful decode re-encodes to exactly the bytes it came from |
| Utf8.DecodeSucceedsIff | src/io_watch/poll.rs:89 | `from_utf8` succeeds exactly on the bytes that are the encoding of some characters |
| Utf8.TruncatedCharFails | src/io_watch/poll.rs:89 | bytes ending with a proper prefix of a multi-byte character do not decode |
| Utf8.ContinuationFirstFails | src/io_watch/poll.rs:89 | bytes starting with the tail of a multi-byte character do not decode |
| PollSpec.FirstReady | src/io_watch/poll.rs:45-53 | the read that ends the wait failed or delivered bytes, and every read before it delivered zero bytes |
| PollSpec.ByteBatch | src/io_watch/poll.rs:45-53 | the byte poll fails exactly when the deciding read failed, with an I/O error; otherwise it returns the non-empty bytes one read delivered |
| PollSpec.ByteBatchBounds | src/io_watch/poll.rs:32 | a byte batch is never empty and never larger than the scratch buffer |
| PollSpec.ByteBatchStopsAtFailure | src/io_watch/poll.rs:46 | a failed read after only empty reads ends the poll with an I/O error, without retrying |
| PollSpec.ZeroCapacityOnlyFails | src/io_watch/poll.rs:45-53 | with a zero-length scratch buffer the byte poll can only return an error |
| PollSpec.DecodeBatch | src/io_watch/poll.rs:88-91 | the character poll succeeds exactly when the byte batch is well-formed UTF-8; its characters re-encode to exactly the batch; a byte error passes through unchanged and a bad batch gives a decode error |
| PollSpec.CharBatch | src/io_watch/poll.rs:87-92 | the character poll succeeds exactly when the byte poll does and its batch decodes; the characters re-encode to exactly that batch; a byte-poll error is passed on as it is |
| PollSpec.SplitCharFails | src/io_watch/poll.rs:88-91 | a byte batch that ends inside a multi-byte character makes the character poll fail with a decode error |
| PollSpec.Feed | src/io_watch/poll.rs:134-144 | the `for` loop over one batch closes at most one line per character and never grows the accumulator beyond the old one plus the batch; its full meaning is stated by `PollSpec.FeedConserves`, `PollSpec.FeedCountsNewlines` and `PollSpec.FeedNoNewline` |
| PollSpec.FeedConserves | src/io_watch/poll.rs:134-144 | the old accumulator followed by the batch equals the closed lines, each followed by `'\n'`, followed by the new accumulator |
| PollSpec.FeedCountsNewlines | src/io_watch/poll.rs:136-138 | one line is closed per `'\n'` in the batch, so consecutive newlines close empty lines |
| PollSpec.FeedNoNewline | src/io_watch/poll.rs:135-142 | neither the closed lines nor the new accumulator contain `'\n'` |
| PollSpec.FeedWithoutNewline | src/io_watch/poll.rs:140-142 | a batch without `'\n'` closes no line and is appended to the accumulator |
| PollSpec.FeedOneLine | src/io_watch/poll.rs:134-144 | a line followed by `'\n'` is closed, joined to what was accumulated, and leaves the accumulator empty |
| PollSpec.PollLines | src/io_watch/poll.rs:127-148 | a successful line poll never returns an empty list, and it pulls at least one character batch |
| PollSpec.PollLinesConserves | src/io_watch/poll.rs:130-145 | the old accumulator followed by every character pulled equals the returned lines, each followed by `'\n'`, followed by the new accumulator; on an error everything pulled stays in the accumulator |
| PollSpec.PollLinesPulled | src/io_watch/poll.rs:133-145 | the characters counted by conservation are exactly those of the batches the line poll uses (and `Poll.StringLinePoll.WaitAndRead` consumes); every batch before the last was successful without `'\n'`, and the last is either the error that is returned or a successful batch holding a `'\n'` |
| PollSpec.PollLinesCount | src/io_watch/poll.rs:136-138 | the number of lines returned is the number of `'\n'` among the characters pulled |
| PollSpec.PollLinesNoNewline | src/io_watch/poll.rs:135-142 | no returned line and no new accumulator contains `'\n'` |
| Poll.ScriptedReader.Read | src/io_watch/poll.rs:46 | a read writes the next scripted answer's bytes to the front of the buffer and returns their count, returns an error for a failure, or returns 0 when nothing is new |
| Poll.BytePoll.constructor | src/io_watch/poll.rs:28-34 | the poll keeps the stream and the delay, and its scratch buffer is `buffer_len` zero bytes |
| Poll.BytePoll.WaitAndRead | src/io_watch/poll.rs:41-54 | returns `ByteBatch` of the script and consumes the reads up to the decisive one; sleeps once per empty read; a batch is the first bytes of the scratch buffer |
| Poll.CharPoll.New | src/io_watch/poll.rs:70-74 | builds a fresh byte stage over the stream with the given delay and buffer length |
| Poll.CharPoll.From | src/io_watch/poll.rs:77-81 | wraps the given byte stage |
| Poll.CharPoll.WaitAndRead | src/io_watch/poll.rs:87-92 | returns `CharBatch` of the script: one byte poll decoded as a whole |
| Poll.StringLinePoll.New | src/io_watch/poll.rs:106-111 | builds fresh character and byte stages over the stream, with an empty accumulator |
| Poll.StringLinePoll.From | src/io_watch/poll.rs:114-121 | wraps the given character stage, with an empty accumulator |
| Poll.StringLinePoll.WaitAndRead | src/io_watch/poll.rs:127-148 | returns the result of `PollLines` on the character batches, leaves its accumulator in the state `PollLines` gives, and consumes exactly the batches it pulled; the accumulator never holds `'\n'` |
| Poll.StringLinePoll.FeedBatch | src/io_watch/poll.rs:134-144 | runs over one character batch and leaves the lines and the accumulator that `Feed` gives for the old accumulator and the batch |
| Events.IsWhitespace | src/events/mod.rs:50 | the Unicode White_Space set of `char::is_whitespace`; among ASCII characters it is exactly space, tab, line feed, vertical tab, form feed and carriage return |
| Events.LeadingWhitespace | src/events/mod.rs:50 | counts the whitespace characters at the start of a string |
| Events.TrailingWhitespace | src/events/mod.rs:50 | counts the whitespace characters at the end of a string |
| Events.Trim | src/events/mod.rs:50 | the result is a slice of the input, everything outside it is whitespace, and it neither starts nor ends with whitespace |
| Events.Find | src/events/mod.rs:49 | the position of the first occurrence of the character, or none exactly when it does not occur |
| Events.StripPrefix | src/events/mod.rs:47-54 | the info record is untouched; a line without `']'` is unchanged; otherwise the output is shorter than the line and neither starts nor ends with whitespace |
| Events.StripPrefixAfterBracket | src/events/mod.rs:49-50 | a line with a `']'` becomes the trimmed text after its first `']'` |
| Events.StripPrefixCarriageReturn | src/events/mod.rs:49-53 | a trailing `'\r'` is kept when the line has no `']'` and removed when it has one |
| Events.MatchJoinedArea | src/events/mod.rs:57-59 | a match captures a location without `'\n'` that lies exactly between the prefix and the final `'.'` |
| Events.MatchJoinedAreaComplete | src/events/mod.rs:57-59 | every line of the form prefix, location, `'.'` matches and captures that location, which may be empty or contain `'.'` |
| Events.MatchJoinedAreaIff | src/events/mod.rs:57 | a line without `'\n'` matches exactly when it starts with `": You have entered "` and ends with `'.'` |
| Events.ProcessLine | src/events/mod.rs:47-63 | at most one event is sent, exactly when the filtered line matches; the event carries the default info and its location is the filtered line's middle |
| Events.TrimSpaceBefore | src/events/mod.rs:50 | trimming a space off text that has no whitespace at either end gives the text |
| Events.StripPrefixOfStampedLine | src/events/mod.rs:49-50 | the filter turns `head] text` into `text` when `head` has no `']'` and `text` is already trimmed |
| Events.ProcessStampedJoinedArea | src/events/mod.rs:47-63 | every timestamped joined-area line yields exactly one `JoinedArea` event with its location and the default info |
| Events.ForestScenario | src/events/mod.rs:49-60 | the line `2024/01/01 00:00:01 123 abc] : You have entered The Forest.` filters to `: You have entered The Forest.` and yields `JoinedArea("The Forest")` |
| Pipeline.OneRead | src/io_watch/poll.rs:88-91 | a read that delivers the encoding of some characters makes the character poll return exactly those characters |
| Pipeline.EmptyReadSkipped | src/io_watch/poll.rs:45-53 | after an empty read the poll returns what the following reads give and leaves the reads after those; the sleep per empty read is stated by the `slept` clause of `Poll.BytePoll.WaitAndRead` |
| Pipeline.WholeLine | src/io_watch/poll.rs:127-148 | a line read in one piece is returned, joined to what was accumulated, and the accumulator ends empty |
| Pipeline.LineInTwoParts | src/io_watch/poll.rs:127-148 | a line that arrives in two parts with an empty read between them is returned whole after two batches |
| Pipeline.JoinedAreaEndToEnd | src/events/mod.rs:47-63 | the bytes of a timestamped joined-area line followed by `'\n'` are polled as one line that yields exactly one `JoinedArea` event |

## Left out

- `src/main.rs` (opening the file, spawning the thread, receiving events and printing them) is not part of this model.
- Real I/O: the stream is a scripted sequence of read answers. All I/O error kinds are one `IoError`; as in the source, no kind (not even an interrupted read) is retried.
- Time: `sleep` is a ghost counter of milliseconds slept. Clock behaviour and the `u64` range of the delay are not modelled.
- Blocking forever: the source waits without end when nothing new ever arrives. `Poll.BytePoll.WaitAndRead` requires a script in which some read fails or delivers bytes (`Ready`). `Poll.StringLinePoll.WaitAndRead` requires that some character batch fails or holds a `'\n'` (`LineReady`). The endless wait itself is not modelled.
- Generic stages: the `Poller` trait and the type parameters become the one composition the constructors build, StringLinePoll over CharPoll over BytePoll over the stream. The `From` impls become the constructors `From`.
- The constructors' `Result` return type: they can never fail, so they are plain constructors.
- `failure::Error` and `Debug` formatting: errors are the datatype `PollError` (`IoError`, `DecodeError`).
- The event manager (`src/events/manager.rs` is not part of this model): the regex engine, the filter chain, dispatch to several rules, `register_event`'s own error, `PoeEvents::new` and `run`. Only the one registered filter and the one registered rule are modelled, and `ProcessLine` composes them.
- The channel (`Sender`, `Arc`) and the `unwrap` on send: the events a line produces are the sequence `ProcessLine` returns.
- Date and time extraction into the info record: the source leaves it as a TODO, so the record stays the default one.
- Byte and character positions: `str::find` returns a byte index and the slice after it is taken in bytes. `']'` is a one-byte character, so this is the same as cutting after the first `']'` character, which is what the model does.
