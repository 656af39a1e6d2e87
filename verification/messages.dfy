/** The TeamCity-style service-message lines the reporter writes, and their
    text form (lib/tree.js getStartMessage / getFinishMessage and the two
    literal lines of lib/intellijReporter.js). */
module Messages {
  import opened Base
  import opened Decimal

  /** What a leaf adds to its finish line; suites add nothing. */
  datatype Extras =
    | NoExtras
    | LeafExtras(duration: Option<int>, status: int, message: string)

  /** One line written to the output sink, before rendering. */
  datatype Line =
    | StartLine(command: string, id: nat, parentId: nat, name: string,
                nodeType: Option<string>, hint: Option<string>)
    | FinishLine(command: string, id: nat, extras: Extras)
    | TestCount(count: int)
    | NullSuiteName
    | BrowserLog(text: string)   // a browser console message, passed through

  /** The attribute-value escaping of the wire protocol. Its rules live in a
      helper module outside this model, so every rendering takes it as a
      parameter and no property below depends on what it does. */
  type Escape = string -> string

  const Prefix := "##teamcity["
  const NodeIdAttr := " nodeId='"
  const NullSuiteNameText :=
    "[Karma bug found] Suite name is null. Please file an issue in the https://github.com/karma-runner/karma/issues"

  /** The optional `nodeType` and `locationHint` attributes of a start line:
      the hint only appears when the type does too. */
  function TypeAttrs(nodeType: Option<string>, hint: Option<string>, esc: Escape): string {
    match nodeType
    case None => ""
    case Some(t) =>
      "' nodeType='" + t +
      (match hint
       case None => ""
       case Some(h) => "' locationHint='" + esc(t + "://" + h))
  }

  const DurationAttr := " duration='"
  const ErrorAttr := " error='yes'"
  const MessageAttr := " message='"

  /** The duration attribute, written only for a numeric duration. */
  function DurationPart(duration: Option<int>): string {
    if duration.Some? then DurationAttr + IntToString(duration.value) + "'" else ""
  }

  /** The error marker, written only for status 3 (an error). */
  function ErrorPart(status: int): string {
    if status == 3 then ErrorAttr else ""
  }

  /** The escaped failure message, written only when it is not empty. */
  function MessagePart(message: string, esc: Escape): string {
    if message != "" then MessageAttr + esc(message) + "'" else ""
  }

  /** The extra parameters of a finish line, or `None` when there are none. */
  function ExtraParams(e: Extras, esc: Escape): (r: Option<string>)
    ensures r.None? <==> (e.NoExtras? || (e.duration.None? && e.status != 3 && e.message == ""))
    ensures r.Some? ==> |r.value| > 0 && r.value[0] == ' '
  {
    match e
    case NoExtras => None
    case LeafExtras(duration, status, message) =>
      var params := DurationPart(duration) + ErrorPart(status) + MessagePart(message, esc);
      if |params| == 0 then None else Some(params)
  }

  // ---------------------------------------------------------------------
  // Reading the extra parameters back

  /** What a reader of a finish line learns from its extra parameters: the
      duration, whether the error marker is present, and the message text as
      written (still escaped). */
  datatype ExtrasRead = ExtrasRead(duration: Option<int>, error: bool, message: Option<string>)

  /** The attributes are read in the order they are written; each one is
      recognised by its name, so an absent one is simply skipped. */
  function ReadExtras(s: string): ExtrasRead {
    var (duration, afterDuration) := ReadDuration(s);
    var error := ErrorAttr <= afterDuration;
    var rest := if error then afterDuration[|ErrorAttr|..] else afterDuration;
    ExtrasRead(duration, error, ReadMessage(rest))
  }

  /** The duration, closed by a quote, and the text after it. */
  function ReadDuration(s: string): (Option<int>, string) {
    if DurationAttr <= s then
      var rest := s[|DurationAttr|..];
      var k := IndexOf(rest, '\'');
      (ParseInt(rest[..k]), if k < |rest| then rest[k + 1..] else [])
    else (None, s)
  }

  /** The message runs to the closing quote at the end of the parameters. */
  function ReadMessage(s: string): Option<string> {
    if MessageAttr <= s && |s| > |MessageAttr| && s[|s| - 1] == '\'' then Some(s[|MessageAttr|..|s| - 1])
    else None
  }

  /** The text of a line, without the trailing newline. Start and finish
      lines share their head: the command, then the node id. */
  function Render(line: Line, esc: Escape): (r: string)
    ensures line.StartLine? || line.FinishLine? || line.TestCount? ==>
      Prefix <= r && r[|r| - 1] == ']'
    ensures line.BrowserLog? ==> r == line.text
  {
    match line
    case StartLine(command, id, parentId, name, nodeType, hint) =>
      Prefix + command + NodeIdAttr + NatToString(id) + "'" +
      StartTail(parentId, name, nodeType, hint, esc)
    case FinishLine(command, id, extras) =>
      Prefix + command + NodeIdAttr + NatToString(id) + "'" + FinishTail(extras, esc)
    case TestCount(count) =>
      Prefix + "testCount count='" + IntToString(count) + "']"
    case NullSuiteName =>
      NullSuiteNameText
    case BrowserLog(text) =>
      text
  }

  /** A start line after its node id: parent id, escaped name, type and hint. */
  function StartTail(parentId: nat, name: string, nodeType: Option<string>,
                     hint: Option<string>, esc: Escape): string {
    " parentNodeId='" + NatToString(parentId) + "' name='" + esc(name) +
    TypeAttrs(nodeType, hint, esc) + "']"
  }

  /** A finish line after its node id: the extra parameters, if any. */
  function FinishTail(extras: Extras, esc: Escape): string {
    ExtraParams(extras, esc).GetOr("") + "]"
  }

  /** What reaches the sink for one line. */
  function Wire(line: Line, esc: Escape): (w: string)
    ensures |w| > 0 && w[|w| - 1] == '\n'
  {
    Render(line, esc) + "\n"
  }

  // ---------------------------------------------------------------------
  // Reading a line back: the consumer identifies every start and finish
  // line by its command and node id.

  /** The index of the first `c` in `s`, or `|s|`. */
  function IndexOf(s: string, c: char): (k: nat)
    ensures k <= |s|
    ensures k < |s| ==> s[k] == c
    ensures forall i :: 0 <= i < k ==> s[i] != c
  {
    if |s| == 0 || s[0] == c then 0 else 1 + IndexOf(s[1..], c)
  }

  /** The length of the longest run of digits at the start of `s`. */
  function DigitRun(s: string): (k: nat)
    ensures k <= |s|
    ensures AllDigits(s[..k])
    ensures k < |s| ==> !('0' <= s[k] <= '9')
  {
    if |s| == 0 || !('0' <= s[0] <= '9') then 0
    else
      var k := 1 + DigitRun(s[1..]);
      assert s[..k] == [s[0]] + s[1..][..k - 1];
      k
  }

  /** The command and node id at the head of a start or finish line. */
  function ReadHead(text: string): Option<(string, nat)> {
    if Prefix <= text then ReadCommand(text[|Prefix|..]) else None
  }

  /** The command runs up to the first space, where the id attribute begins. */
  function ReadCommand(rest: string): Option<(string, nat)> {
    var space := IndexOf(rest, ' ');
    if NodeIdAttr <= rest[space..] then ReadId(rest[..space], rest[space + |NodeIdAttr|..])
    else None
  }

  /** The id is the run of digits closed by a quote. */
  function ReadId(command: string, num: string): Option<(string, nat)> {
    var k := DigitRun(num);
    if k == 0 || k == |num| || num[k] != '\'' then None
    else Some((command, ParseDigits(num[..k])))
  }

  /** Every start and finish line names a command without spaces. */
  predicate PlainCommand(command: string) {
    ' ' !in command
  }

  lemma IndexOfAfter(a: string, b: string, c: char)
    requires c !in a && |b| > 0 && b[0] == c
    ensures IndexOf(a + b, c) == |a|
  {
    var k := IndexOf(a + b, c);
    assert (a + b)[|a|] == c;
  }

  lemma DigitRunOf(d: string, t: string)
    requires AllDigits(d) && |t| > 0 && !('0' <= t[0] <= '9')
    ensures DigitRun(d + t) == |d|
    ensures (d + t)[..|d|] == d
  {
    var k := DigitRun(d + t);
    assert (d + t)[|d|] == t[0];
    assert (d + t)[..|d|] == d;
  }

  lemma ReadIdOf(command: string, id: nat, tail: string)
    ensures ReadId(command, NatToString(id) + ("'" + tail)) == Some((command, id))
  {
    DigitRunOf(NatToString(id), "'" + tail);
    ParseNatToString(id);
  }

  lemma ReadCommandOf(command: string, num: string)
    requires PlainCommand(command)
    ensures ReadCommand(command + (NodeIdAttr + num)) == ReadId(command, num)
  {
    var after := NodeIdAttr + num;
    var rest := command + after;
    IndexOfAfter(command, after, ' ');
    assert rest[|command|..] == after;
    assert rest[..|command|] == command;
    assert rest[|command| + |NodeIdAttr|..] == num;
  }

  lemma PrefixStrip(p: string, rest: string)
    ensures p <= p + rest
    ensures (p + rest)[|p|..] == rest
  {
  }

  /** The head parser recovers command and id from any text that starts the
      way both start and finish lines start. */
  lemma ReadHeadOf(command: string, id: nat, tail: string)
    requires PlainCommand(command)
    ensures ReadHead(Prefix + (command + (NodeIdAttr + (NatToString(id) + ("'" + tail)))))
            == Some((command, id))
  {
    var num := NatToString(id) + ("'" + tail);
    PrefixStrip(Prefix, command + (NodeIdAttr + num));
    ReadCommandOf(command, num);
    ReadIdOf(command, id, tail);
  }

  /** A rendered start or finish line reads back as its own command and id. */
  lemma ReadHeadRender(line: Line, esc: Escape)
    requires line.StartLine? || line.FinishLine?
    requires PlainCommand(line.command)
    ensures ReadHead(Render(line, esc)) == Some((line.command, line.id))
  {
    var tail := if line.StartLine?
      then StartTail(line.parentId, line.name, line.nodeType, line.hint, esc)
      else FinishTail(line.extras, esc);
    assert Render(line, esc) == Prefix + line.command + NodeIdAttr + NatToString(line.id) + "'" + tail;
    SeqAssoc6(Prefix, line.command, NodeIdAttr, NatToString(line.id), "'", tail);
    ReadHeadOf(line.command, line.id, tail);
  }

  lemma SeqAssoc6(a: string, b: string, c: string, d: string, e: string, f: string)
    ensures a + b + c + d + e + f == a + (b + (c + (d + (e + f))))
  {
  }

  // ---------------------------------------------------------------------
  // The extra parameters read back

  /** A finish line's extra parameters read back as the leaf's duration, an
      error marker exactly for status 3, and the escaped message exactly when
      the message is not empty. */
  lemma ExtrasReadBack(duration: Option<int>, status: int, message: string, esc: Escape)
    ensures ReadExtras(ExtraParams(LeafExtras(duration, status, message), esc).GetOr(""))
         == ExtrasRead(duration, status == 3, if message == "" then None else Some(esc(message)))
  {
    var m := MessagePart(message, esc);
    var rest := ErrorPart(status) + m;
    var s := DurationPart(duration) + rest;
    assert ExtraParams(LeafExtras(duration, status, message), esc).GetOr("") == s;
    ReadDurationOf(duration, status, message, esc);
    ReadErrorOf(status, message, esc);
    ReadMessageOf(message, esc);
  }

  lemma ReadDurationOf(duration: Option<int>, status: int, message: string, esc: Escape)
    ensures ReadDuration(DurationPart(duration) + (ErrorPart(status) + MessagePart(message, esc)))
         == (duration, ErrorPart(status) + MessagePart(message, esc))
  {
    var rest := ErrorPart(status) + MessagePart(message, esc);
    if duration.Some? {
      ReadNumeral(duration.value, rest);
    } else {
      assert DurationPart(duration) + rest == rest;
      AfterDuration(status, message, esc);
      NoDurationAhead(rest);
    }
  }

  /** What may follow the duration starts with the error or the message
      attribute. */
  lemma AfterDuration(status: int, message: string, esc: Escape)
    ensures var rest := ErrorPart(status) + MessagePart(message, esc);
      rest == [] || (|rest| >= 2 && rest[1] != 'd')
  {
    var m := MessagePart(message, esc);
    if status == 3 {
      assert (ErrorAttr + m)[1] == ErrorAttr[1];
    } else if m != [] {
      assert ErrorPart(status) + m == m;
      assert m[1] == MessageAttr[1];
    }
  }

  lemma NoDurationAhead(rest: string)
    requires rest == [] || (|rest| >= 2 && rest[1] != 'd')
    ensures ReadDuration(rest) == (None, rest)
  {
  }

  /** A written duration is parsed back, and reading resumes after its quote. */
  lemma ReadNumeral(v: int, rest: string)
    ensures ReadDuration(DurationAttr + IntToString(v) + "'" + rest) == (Some(v), rest)
  {
    var num := IntToString(v);
    var tail := "'" + rest;
    assert DurationAttr + num + "'" + rest == DurationAttr + (num + tail);
    PrefixStrip(DurationAttr, num + tail);
    NoQuoteInNumeral(v);
    IndexOfAfter(num, tail, '\'');
    assert (num + tail)[..|num|] == num;
    assert (num + tail)[|num| + 1..] == rest;
    IntToStringRoundTrip(v);
  }

  lemma ReadErrorOf(status: int, message: string, esc: Escape)
    ensures ErrorAttr <= ErrorPart(status) + MessagePart(message, esc) <==> status == 3
    ensures status == 3 ==> (ErrorPart(status) + MessagePart(message, esc))[|ErrorAttr|..] == MessagePart(message, esc)
    ensures status != 3 ==> ErrorPart(status) + MessagePart(message, esc) == MessagePart(message, esc)
  {
    var m := MessagePart(message, esc);
    if status == 3 {
      PrefixStrip(ErrorAttr, m);
    } else {
      assert ErrorPart(status) + m == m;
      if m != [] {
        assert m[1] == 'm' && ErrorAttr[1] == 'e';
      }
    }
  }

  lemma ReadMessageOf(message: string, esc: Escape)
    ensures ReadMessage(MessagePart(message, esc)) == if message == "" then None else Some(esc(message))
  {
    if message != "" {
      var m := MessagePart(message, esc);
      assert m == MessageAttr + (esc(message) + "'");
      PrefixStrip(MessageAttr, esc(message) + "'");
      assert m[|MessageAttr|..|m| - 1] == esc(message);
    }
  }

  /** A numeral holds no quote, so the quote after a duration closes it. */
  lemma NoQuoteInNumeral(i: int)
    ensures '\'' !in IntToString(i)
  {
    var s := IntToString(i);
    if i < 0 {
      assert s == "-" + NatToString(-i);
      assert forall k :: 1 <= k < |s| ==> s[k] == NatToString(-i)[k - 1];
    }
  }
}
