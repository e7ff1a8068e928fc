/**
 * The game-specific line processing of src/events/mod.rs: the filter that strips
 * the log prefix, and the rule that turns "joined area" lines into events.
 */
module Events {
  import opened Options

  /** PoeLogLineInfo: side information about a line.  Nothing fills it in yet. */
  datatype LineInfo = LineInfo(time: string, date: string)

  /** `PoeLogLineInfo::default()`, the record every line starts with. */
  const DefaultInfo: LineInfo := LineInfo("", "")

  datatype PoeEvent = JoinedArea(location: string)

  /** `char::is_whitespace`: the characters with the Unicode White_Space property. */
  predicate IsWhitespace(c: char)
    ensures c < '\U{80}' ==> (IsWhitespace(c) <==> c in " \t\n\r\U{0B}\U{0C}")
  {
    ('\t' <= c <= '\r') || c == ' ' || c == '\U{85}' || c == '\U{A0}' || c == '\U{1680}' ||
    ('\U{2000}' <= c <= '\U{200A}') || c == '\U{2028}' || c == '\U{2029}' ||
    c == '\U{202F}' || c == '\U{205F}' || c == '\U{3000}'
  }

  /** Number of whitespace characters at the start of `s`. */
  function LeadingWhitespace(s: string): (n: nat)
    ensures n <= |s|
    ensures forall i :: 0 <= i < n ==> IsWhitespace(s[i])
    ensures n < |s| ==> !IsWhitespace(s[n])
    decreases |s|
  {
    if s != [] && IsWhitespace(s[0]) then 1 + LeadingWhitespace(s[1..]) else 0
  }

  /** Number of whitespace characters at the end of `s`. */
  function TrailingWhitespace(s: string): (n: nat)
    ensures n <= |s|
    ensures forall i :: |s| - n <= i < |s| ==> IsWhitespace(s[i])
    ensures n < |s| ==> !IsWhitespace(s[|s| - n - 1])
    decreases |s|
  {
    if s != [] && IsWhitespace(s[|s| - 1]) then 1 + TrailingWhitespace(s[..|s| - 1]) else 0
  }

  /**
   * `str::trim`: the middle of `s` between its leading and its trailing
   * whitespace; it neither starts nor ends with whitespace.
   */
  function Trim(s: string): (r: string)
    ensures var a := LeadingWhitespace(s);
      a + |r| <= |s| && r == s[a..a + |r|] &&
      forall i :: 0 <= i < |s| && !(a <= i < a + |r|) ==> IsWhitespace(s[i])
    ensures r != [] ==> !IsWhitespace(r[0]) && !IsWhitespace(r[|r| - 1])
  {
    var t := s[LeadingWhitespace(s)..];
    t[..|t| - TrailingWhitespace(t)]
  }

  /** `str::find` for a one-character pattern: the first position of `c`. */
  function Find(s: string, c: char): (r: Option<nat>)
    ensures r.None? <==> c !in s
    ensures r.Some? ==> r.value < |s| && s[r.value] == c && c !in s[..r.value]
    decreases |s|
  {
    if s == [] then None
    else if s[0] == c then Some(0)
    else
      match Find(s[1..], c)
      case None => None
      case Some(i) => assert s[1..][..i] == s[1..i + 1]; Some(i + 1)
  }

  /**
   * The filter registered by `register_poe_events`: a line holding a ']' is cut
   * after the first one and trimmed; any other line passes unchanged.  The info
   * record is handed through untouched.
   */
  function StripPrefix(line: string, info: LineInfo): (r: (string, LineInfo))
    ensures r.1 == info
    ensures ']' !in line ==> r.0 == line
    ensures ']' in line ==>
      |r.0| < |line| &&
      (r.0 != [] ==> !IsWhitespace(r.0[0]) && !IsWhitespace(r.0[|r.0| - 1]))
  {
    match Find(line, ']')
    case Some(index) => (Trim(line[index + 1..]), info)
    case None => (line, info)
  }

  /** What a line holding a ']' becomes: the text after the first ']', trimmed. */
  lemma StripPrefixAfterBracket(line: string, i: nat)
    requires i < |line| && line[i] == ']' && ']' !in line[..i]
    ensures StripPrefix(line, DefaultInfo).0 == Trim(line[i + 1..])
  {
  }

  /** A trailing '\r' (whitespace) survives the filter only when there is no ']'. */
  lemma StripPrefixCarriageReturn(line: string)
    requires line != [] && line[|line| - 1] == '\r'
    ensures var out := StripPrefix(line, DefaultInfo).0;
      (']' !in line ==> out == line) &&
      (']' in line ==> out == [] || out[|out| - 1] != '\r')
  {
  }

  const JoinedAreaPrefix: string := ": You have entered "

  /**
   * The rule `^: You have entered (?P<location>.*)\.$` and its `location`
   * capture.  In the regex crate `.` matches any character but '\n' and `$`
   * matches only at the end of the text, so the greedy capture runs up to the
   * final '.'.
   */
  function MatchJoinedArea(line: string): (location: Option<string>)
    ensures location.Some? ==> '\n' !in location.value && line == JoinedAreaPrefix + location.value + "."
  {
    var n := |JoinedAreaPrefix|;
    if |line| > n && line[..n] == JoinedAreaPrefix && line[|line| - 1] == '.' && '\n' !in line[n..|line| - 1]
    then
      assert line == line[..n] + line[n..|line| - 1] + ".";
      Some(line[n..|line| - 1])
    else None
  }

  /** Every line of the pattern's shape matches, capturing exactly its middle, dots included. */
  lemma MatchJoinedAreaComplete(location: string)
    requires '\n' !in location
    ensures MatchJoinedArea(JoinedAreaPrefix + location + ".") == Some(location)
  {
    var line := JoinedAreaPrefix + location + ".";
    var n := |JoinedAreaPrefix|;
    assert line[..n] == JoinedAreaPrefix;
    assert line[n..|line| - 1] == location;
  }

  /** For a line without '\n': it matches exactly when it starts with the prefix and ends with '.'. */
  lemma MatchJoinedAreaIff(line: string)
    requires '\n' !in line
    ensures MatchJoinedArea(line).Some? <==>
      |line| > |JoinedAreaPrefix| && line[..|JoinedAreaPrefix|] == JoinedAreaPrefix && line[|line| - 1] == '.'
  {
    var n := |JoinedAreaPrefix|;
    if |line| > n {
      assert forall c :: c in line[n..|line| - 1] ==> c in line;
    }
  }

  /**
   * One line through the registered filter and then the registered rule: the
   * (event, info) pairs the handler sends.  Info starts as the default record.
   */
  function ProcessLine(line: string): (sent: seq<(PoeEvent, LineInfo)>)
    ensures |sent| <= 1
    ensures |sent| == 1 <==> MatchJoinedArea(StripPrefix(line, DefaultInfo).0).Some?
    ensures |sent| == 1 ==>
      sent[0].1 == DefaultInfo &&
      StripPrefix(line, DefaultInfo).0 == JoinedAreaPrefix + sent[0].0.location + "."
  {
    var (filtered, info) := StripPrefix(line, DefaultInfo);
    match MatchJoinedArea(filtered)
    case Some(location) => [(JoinedArea(location), info)]
    case None => []
  }

  /** Trimming one leading space off text that has no whitespace at either end. */
  lemma TrimSpaceBefore(text: string)
    requires text != [] && !IsWhitespace(text[0]) && !IsWhitespace(text[|text| - 1])
    ensures Trim([' '] + text) == text
  {
    var after := [' '] + text;
    assert LeadingWhitespace(after) == 1;
    assert after[1..] == text;
    assert TrailingWhitespace(text) == 0;
  }

  /** A timestamped line `head] text`: the filter leaves exactly `text`, once it is trimmed already. */
  lemma StripPrefixOfStampedLine(head: string, text: string)
    requires ']' !in head
    requires text != [] && !IsWhitespace(text[0]) && !IsWhitespace(text[|text| - 1])
    ensures StripPrefix(head + "] " + text, DefaultInfo).0 == text
  {
    var line := head + "] " + text;
    assert line[|head|] == ']' && ']' !in line[..|head|] && line[|head| + 1..] == [' '] + text by {
      assert line[..|head|] == head;
    }
    StripPrefixAfterBracket(line, |head|);
    TrimSpaceBefore(text);
  }

  /** Any timestamped "joined area" line yields exactly one JoinedArea event, carrying the default info. */
  lemma ProcessStampedJoinedArea(head: string, location: string)
    requires ']' !in head && '\n' !in location
    ensures ProcessLine(head + "] " + JoinedAreaPrefix + location + ".") == [(JoinedArea(location), DefaultInfo)]
  {
    var text := JoinedAreaPrefix + location + ".";
    assert head + "] " + JoinedAreaPrefix + location + "." == head + "] " + text;
    StripPrefixOfStampedLine(head, text);
    MatchJoinedAreaComplete(location);
  }

  /**
   * A typical client log line,
   * "2024/01/01 00:00:01 123 abc] : You have entered The Forest.",
   * becomes ": You have entered The Forest." after the filter and yields JoinedArea("The Forest").
   */
  lemma ForestScenario(head: string, location: string, line: string)
    requires head == "2024/01/01 00:00:01 123 abc" && location == "The Forest"
    requires line == head + "] " + JoinedAreaPrefix + location + "."
    ensures StripPrefix(line, DefaultInfo).0 == JoinedAreaPrefix + location + "."
    ensures ProcessLine(line) == [(JoinedArea("The Forest"), DefaultInfo)]
  {
    assert ']' !in head;
    assert '\n' !in location;
    ProcessStampedJoinedArea(head, location);
  }
}
