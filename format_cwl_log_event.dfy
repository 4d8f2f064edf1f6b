/**
 * The log-line formatter of `src/format-cwl-log-event/src/lib.rs`: a template
 * such as `[${log_stream_name}] ${message}` compiles to a list of instructions
 * (escaped delimiter, variable, literal), and formatting an event concatenates
 * the rendering of each instruction in order.
 *
 * The template grammar is generated from a grammar file that is not part of
 * this model. `Parse` below is a stand-in tokenizer: `$$` is an escaped
 * delimiter, `${ident}` and `$ident` are variables whose identifier is a run of
 * ASCII letters, digits and `_`, a `$` that starts neither is a parse error,
 * and a literal is a maximal run of characters other than `$`. Only what the
 * unit tests of that file assert is claimed of it.
 */
module FormatCwlLogEvent {
  import opened Wrappers

  /** `FilteredLogEventVariable`: the six event fields a template may name. */
  datatype Variable = LogGroupName | EventId | IngestionTime | LogStreamName | Message | Timestamp

  /** `FormatValue`, keeping the source's spelling of the first variant. */
  datatype FormatValue = EscapedDelimeter | Variable(variable: Variable) | Literal(text: string)

  /** The position at which the template stops being well formed. */
  datatype ParseError = ParseError(position: nat)

  /** `FormatCwlLogEventError`. */
  datatype FormatError = CompileError(parseError: ParseError) | UnknownFormatVariable(name: string) | Unknown

  /** What the generated parser yields for a template, rule by rule. */
  datatype Pair = EscapedDelimiterPair | VariablePair(identifier: string) | LiteralPair(text: string) | EOI

  datatype LogFormatter = LogFormatter(instructions: seq<FormatValue>)

  /**
   * `FilteredLogEvent` of this crate: the two instants are kept together with
   * their RFC 3339 renderings (millisecond precision, `Z` suffix), computed once
   * when the event is built.
   */
  datatype FilteredLogEvent = FilteredLogEvent(
    logGroupName: string,
    eventId: string,
    ingestionTime: int,
    logStreamName: string,
    message: string,
    timestamp: int,
    ingestionTimeRfc3339: string,
    timestampRfc3339: string)

  /**
   * `FilteredLogEvent::new`. The RFC 3339 renderer of the date library is the
   * parameter `rfc3339`, applied to each instant in nanoseconds.
   */
  function NewFilteredLogEvent(logGroupName: string, eventId: string, ingestionTime: int,
                               logStreamName: string, message: string, timestamp: int,
                               rfc3339: int -> string): (e: FilteredLogEvent)
    ensures e.ingestionTimeRfc3339 == rfc3339(e.ingestionTime) && e.timestampRfc3339 == rfc3339(e.timestamp)
    ensures e.ingestionTime == ingestionTime && e.timestamp == timestamp
    ensures e.logGroupName == logGroupName && e.eventId == eventId
    ensures e.logStreamName == logStreamName && e.message == message
  {
    FilteredLogEvent(logGroupName, eventId, ingestionTime, logStreamName, message, timestamp,
                     rfc3339(ingestionTime), rfc3339(timestamp))
  }

  // ---------------------------------------------------------------------------
  // Variables

  /** The identifier that names each variable in a template. */
  function VariableName(v: Variable): string {
    match v
    case LogGroupName => "log_group_name"
    case EventId => "event_id"
    case IngestionTime => "ingestion_time"
    case LogStreamName => "log_stream_name"
    case Message => "message"
    case Timestamp => "timestamp"
  }

  /** `FilteredLogEventVariable::try_from`: exactly the six names are accepted. */
  function TryFrom(value: string): (r: Result<Variable, FormatError>)
    ensures r.Success? <==> value in {"log_group_name", "event_id", "ingestion_time", "log_stream_name", "message", "timestamp"}
    ensures r.Failure? ==> r.error == UnknownFormatVariable(value)
  {
    match value
    case "log_group_name" => Success(LogGroupName)
    case "event_id" => Success(EventId)
    case "ingestion_time" => Success(IngestionTime)
    case "log_stream_name" => Success(LogStreamName)
    case "message" => Success(Message)
    case "timestamp" => Success(Timestamp)
    case _ => Failure(UnknownFormatVariable(value))
  }

  /** `TryFrom` and `VariableName` are inverse to each other. */
  lemma TryFromVariableName(v: Variable, value: string)
    ensures TryFrom(VariableName(v)) == Success(v)
    ensures TryFrom(value).Success? ==> VariableName(TryFrom(value).value) == value
  {
  }

  /** The text a variable is replaced by. */
  function Field(e: FilteredLogEvent, v: Variable): string {
    match v
    case LogGroupName => e.logGroupName
    case EventId => e.eventId
    case IngestionTime => e.ingestionTimeRfc3339
    case LogStreamName => e.logStreamName
    case Message => e.message
    case Timestamp => e.timestampRfc3339
  }

  // ---------------------------------------------------------------------------
  // Template tokens (stand-in for the generated parser)

  predicate IsIdentifierChar(c: char) {
    'a' <= c <= 'z' || 'A' <= c <= 'Z' || '0' <= c <= '9' || c == '_'
  }

  /** Length of the longest prefix of identifier characters. */
  function IdentifierLength(s: string): (n: nat)
    ensures n <= |s|
  {
    if s == [] || !IsIdentifierChar(s[0]) then 0 else 1 + IdentifierLength(s[1..])
  }

  /** Length of the longest prefix free of `$`. */
  function LiteralLength(s: string): (n: nat)
    ensures n <= |s|
    ensures s != [] && s[0] != '$' ==> n > 0
  {
    if s == [] || s[0] == '$' then 0 else 1 + LiteralLength(s[1..])
  }

  function Cons(p: Pair, rest: Result<seq<Pair>, ParseError>): Result<seq<Pair>, ParseError> {
    match rest
    case Success(ps) => Success([p] + ps)
    case Failure(e) => Failure(e)
  }

  /** The first token of a nonempty template and its length, or None if no token starts there. */
  function Token(s: string): (r: Option<(Pair, nat)>)
    requires s != []
    ensures r.Some? ==> 0 < r.value.1 <= |s|
  {
    if s[0] == '$' then
      if |s| >= 2 && s[1] == '$' then Some((EscapedDelimiterPair, 2))
      else if |s| >= 2 && s[1] == '{' then
        var n := IdentifierLength(s[2..]);
        if 0 < n && 2 + n < |s| && s[2 + n] == '}' then Some((VariablePair(s[2..2 + n]), 3 + n))
        else None
      else
        var n := IdentifierLength(s[1..]);
        if 0 < n then Some((VariablePair(s[1..1 + n]), 1 + n)) else None
    else
      var n := LiteralLength(s);
      Some((LiteralPair(s[..n]), n))
  }

  /** Tokenizes the template `s`, which starts at `offset` of the whole template. */
  function Parse(s: string, offset: nat): Result<seq<Pair>, ParseError>
    decreases |s|
  {
    if s == [] then Success([EOI])
    else
      match Token(s)
      case None => Failure(ParseError(offset))
      case Some((p, n)) => Cons(p, Parse(s[n..], offset + n))
  }

  // ---------------------------------------------------------------------------
  // Compilation (`LogFormatter::new`)

  /** The instruction one parsed pair contributes, or the error it raises. */
  function Translate(p: Pair): Result<seq<FormatValue>, FormatError> {
    match p
    case EscapedDelimiterPair => Success([EscapedDelimeter])
    case VariablePair(identifier) =>
      (match TryFrom(identifier)
       case Success(v) => Success([Variable(v)])
       case Failure(e) => Failure(e))
    case LiteralPair(text) => Success([Literal(text)])
    case EOI => Success([])
  }

  /** The post-parse loop, read as a left fold: it stops at the first failing pair. */
  function Instructions(pairs: seq<Pair>): Result<seq<FormatValue>, FormatError>
    decreases |pairs|
  {
    if pairs == [] then Success([])
    else
      match Instructions(pairs[..|pairs| - 1])
      case Failure(e) => Failure(e)
      case Success(acc) =>
        match Translate(pairs[|pairs| - 1])
        case Failure(e) => Failure(e)
        case Success(v) => Success(acc + v)
  }

  predicate KnownIdentifier(p: Pair) {
    p.VariablePair? ==> TryFrom(p.identifier).Success?
  }

  /** A failure stays a failure when more pairs follow. */
  lemma {:induction false} InstructionsFailureSticks(pairs: seq<Pair>, n: nat)
    requires n <= |pairs| && Instructions(pairs[..n]).Failure?
    ensures Instructions(pairs) == Instructions(pairs[..n])
    decreases |pairs| - n
  {
    if n < |pairs| {
      assert pairs[..n + 1][..n] == pairs[..n];
      InstructionsFailureSticks(pairs, n + 1);
    } else {
      assert pairs[..n] == pairs;
    }
  }

  /**
   * Compilation succeeds exactly when every variable names one of the six
   * fields; otherwise it reports the first unknown identifier.
   */
  lemma {:induction false} InstructionsSucceedIff(pairs: seq<Pair>)
    ensures Instructions(pairs).Success? <==> forall i :: 0 <= i < |pairs| ==> KnownIdentifier(pairs[i])
    ensures Instructions(pairs).Failure? ==>
      exists j :: 0 <= j < |pairs| && !KnownIdentifier(pairs[j])
        && (forall i :: 0 <= i < j ==> KnownIdentifier(pairs[i]))
        && Instructions(pairs).error == UnknownFormatVariable(pairs[j].identifier)
    decreases |pairs|
  {
    if pairs != [] {
      var init := pairs[..|pairs| - 1];
      InstructionsSucceedIff(init);
      assert forall i :: 0 <= i < |init| ==> init[i] == pairs[i];
      if Instructions(init).Failure? {
        var j :| 0 <= j < |init| && !KnownIdentifier(init[j])
          && (forall i :: 0 <= i < j ==> KnownIdentifier(init[i]))
          && Instructions(init).error == UnknownFormatVariable(init[j].identifier);
        assert !KnownIdentifier(pairs[j]);
      }
    }
  }

  /** The instruction list, stripped of errors, renders as the pairs read one by one. */
  function RenderPairs(pairs: seq<Pair>, e: FilteredLogEvent): string
    requires forall i :: 0 <= i < |pairs| ==> KnownIdentifier(pairs[i])
  {
    if pairs == [] then ""
    else
      assert KnownIdentifier(pairs[0]);
      var head := match pairs[0]
        case EscapedDelimiterPair => "$"
        case VariablePair(identifier) => Field(e, TryFrom(identifier).value)
        case LiteralPair(text) => text
        case EOI => "";
      head + RenderPairs(pairs[1..], e)
  }

  /** `LogFormatter::new`, as specified: parse, then compile. */
  function CompileFormat(format: string): Result<LogFormatter, FormatError> {
    match Parse(format, 0)
    case Failure(e) => Failure(CompileError(e))
    case Success(pairs) =>
      match Instructions(pairs)
      case Failure(e) => Failure(e)
      case Success(instructions) => Success(LogFormatter(instructions))
  }

  /** `LogFormatter::new`: the post-parse loop pushing one instruction per pair. */
  method NewLogFormatter(format: string) returns (r: Result<LogFormatter, FormatError>)
    ensures r == CompileFormat(format)
  {
    var parsed := Parse(format, 0);
    if parsed.Failure? {
      return Failure(CompileError(parsed.error));
    }
    var pairs := parsed.value;
    var instructions: seq<FormatValue> := [];
    var i := 0;
    while i < |pairs|
      invariant 0 <= i <= |pairs|
      invariant Instructions(pairs[..i]) == Success(instructions)
    {
      assert pairs[..i + 1][..i] == pairs[..i] && pairs[..i + 1][i] == pairs[i];
      ghost var before := instructions;
      match pairs[i] {
        case EscapedDelimiterPair =>
          instructions := instructions + [EscapedDelimeter];
        case VariablePair(identifier) =>
          var variable := TryFrom(identifier);
          if variable.Failure? {
            InstructionsFailureSticks(pairs, i + 1);
            return Failure(variable.error);
          }
          instructions := instructions + [Variable(variable.value)];
        case LiteralPair(text) =>
          instructions := instructions + [Literal(text)];
        case EOI =>
      }
      assert instructions == before + Translate(pairs[i]).value;
      i := i + 1;
    }
    assert pairs[..i] == pairs;
    r := Success(LogFormatter(instructions));
  }

  // ---------------------------------------------------------------------------
  // Formatting (`LogFormatter::format`)

  function RenderOne(instruction: FormatValue, e: FilteredLogEvent): string {
    match instruction
    case EscapedDelimeter => "$"
    case Variable(v) => Field(e, v)
    case Literal(text) => text
  }

  /** The in-order concatenation of the instructions' renderings. */
  function Render(instructions: seq<FormatValue>, e: FilteredLogEvent): string {
    if instructions == [] then "" else RenderOne(instructions[0], e) + Render(instructions[1..], e)
  }

  /** Rendering distributes over concatenation of instruction lists. */
  lemma {:induction false} RenderAppend(a: seq<FormatValue>, b: seq<FormatValue>, e: FilteredLogEvent)
    ensures Render(a + b, e) == Render(a, e) + Render(b, e)
    decreases |a|
  {
    if a != [] {
      assert (a + b)[1..] == a[1..] + b;
      RenderAppend(a[1..], b, e);
    } else {
      assert a + b == b;
    }
  }

  /** `LogFormatter::format`: pushes each rendering onto the output in turn. */
  method Format(formatter: LogFormatter, event: FilteredLogEvent) returns (output: string)
    ensures output == Render(formatter.instructions, event)
  {
    output := "";
    var i := 0;
    while i < |formatter.instructions|
      invariant 0 <= i <= |formatter.instructions|
      invariant output == Render(formatter.instructions[..i], event)
    {
      var instruction := formatter.instructions[i];
      var text := match instruction
        case EscapedDelimeter => "$"
        case Variable(identifier) => Field(event, identifier)
        case Literal(value) => value;
      assert formatter.instructions[..i + 1] == formatter.instructions[..i] + [instruction];
      RenderAppend(formatter.instructions[..i], [instruction], event);
      output := output + text;
      i := i + 1;
    }
    assert formatter.instructions[..i] == formatter.instructions;
  }

  /**
   * Compiling and then rendering gives the same text as reading the parsed pairs
   * directly: each variable is replaced by its field, verbatim, and no field text
   * is read as a template again.
   */
  lemma {:induction false} RenderInstructions(pairs: seq<Pair>, e: FilteredLogEvent)
    requires Instructions(pairs).Success?
    ensures forall i :: 0 <= i < |pairs| ==> KnownIdentifier(pairs[i])
    ensures Render(Instructions(pairs).value, e) == RenderPairs(pairs, e)
    decreases |pairs|
  {
    InstructionsSucceedIff(pairs);
    if pairs != [] {
      var init := pairs[..|pairs| - 1];
      var last := pairs[|pairs| - 1];
      assert init + [last] == pairs;
      assert forall i :: 0 <= i < |init| ==> init[i] == pairs[i];
      RenderInstructions(init, e);
      var acc := Instructions(init).value;
      var v := Translate(last).value;
      assert Instructions(pairs).value == acc + v;
      RenderTranslated(last, e);
      RenderAppend(acc, v, e);
      RenderPairsAppend(init, [last], e);
    }
  }

  /** One known pair renders the same through its instruction as read directly. */
  lemma RenderTranslated(p: Pair, e: FilteredLogEvent)
    requires KnownIdentifier(p)
    ensures Translate(p).Success?
    ensures Render(Translate(p).value, e) == RenderPairs([p], e)
  {
  }

  lemma {:induction false} RenderPairsAppend(a: seq<Pair>, b: seq<Pair>, e: FilteredLogEvent)
    requires forall i :: 0 <= i < |a| ==> KnownIdentifier(a[i])
    requires forall i :: 0 <= i < |b| ==> KnownIdentifier(b[i])
    ensures forall i :: 0 <= i < |a + b| ==> KnownIdentifier((a + b)[i])
    ensures RenderPairs(a + b, e) == RenderPairs(a, e) + RenderPairs(b, e)
    decreases |a|
  {
    if a != [] {
      assert (a + b)[1..] == a[1..] + b;
      RenderPairsAppend(a[1..], b, e);
    } else {
      assert a + b == b;
    }
  }

  // ---------------------------------------------------------------------------
  // Command-line validation

  const UnknownVariableOpening: string := "unknown format variable '"
  const UnknownVariableChoices: string :=
    ", choose one from 'log_group_name', 'event_id', 'ingestion_time', 'log_stream_name', 'message', 'timestamp'"

  /**
   * The text of an error, as its `Display` writes it; a parse error's text is the
   * parser's own. An unknown variable's message quotes the identifier as written.
   */
  function ErrorMessage(err: FormatError, parseErrorText: ParseError -> string): (r: string)
    ensures err.UnknownFormatVariable? ==>
              var n := |UnknownVariableOpening|;
              |r| > n + |err.name| && r[..n] == UnknownVariableOpening
              && r[n..n + |err.name|] == err.name && r[n + |err.name|] == '\''
    ensures err.CompileError? ==> r == parseErrorText(err.parseError)
    ensures err.Unknown? ==> r == "unknown format error"
  {
    match err
    case CompileError(p) => parseErrorText(p)
    case UnknownFormatVariable(name) =>
      var m := UnknownVariableOpening + name + "'" + UnknownVariableChoices;
      assert m[|UnknownVariableOpening| + |name|] == '\'';
      m
    case Unknown => "unknown format error"
  }

  /** `clap_validate_output_format`: accepted exactly when the template compiles. */
  function ClapValidateOutputFormat(outputFormat: string, parseErrorText: ParseError -> string): (r: Result<(), string>)
    ensures r.Success? <==> CompileFormat(outputFormat).Success?
    ensures r.Failure? ==> r.error == "\n" + ErrorMessage(CompileFormat(outputFormat).error, parseErrorText)
  {
    match CompileFormat(outputFormat)
    case Success(_) => Success(())
    case Failure(err) => Failure("\n" + ErrorMessage(err, parseErrorText))
  }

  // ---------------------------------------------------------------------------
  // The unit tests of the formatter

  /** The event of the unit tests: 2014-07-08T09:10:11.123456789Z and 2014-07-08T09:10:10.789101234Z. */
  function TestEvent(rfc3339: int -> string): FilteredLogEvent {
    NewFilteredLogEvent(
      "/aws/logs/log-group", "event-id",
      1_404_810_611_123_456_789,
      "log-stream-name", "message",
      1_404_810_610_789_101_234,
      rfc3339)
  }

  predicate IsIdentifier(id: string) {
    |id| > 0 && forall i :: 0 <= i < |id| ==> IsIdentifierChar(id[i])
  }

  /** `rest` cannot extend an identifier that precedes it. */
  predicate EndsIdentifier(rest: string) {
    rest == [] || !IsIdentifierChar(rest[0])
  }

  lemma {:induction false} IdentifierLengthOf(id: string, rest: string)
    requires forall i :: 0 <= i < |id| ==> IsIdentifierChar(id[i])
    requires EndsIdentifier(rest)
    ensures IdentifierLength(id + rest) == |id|
    decreases |id|
  {
    if id != [] {
      assert (id + rest)[1..] == id[1..] + rest;
      IdentifierLengthOf(id[1..], rest);
    } else {
      assert id + rest == rest;
    }
  }

  lemma {:induction false} LiteralLengthOf(text: string, rest: string)
    requires forall i :: 0 <= i < |text| ==> text[i] != '$'
    requires rest == [] || rest[0] == '$'
    ensures LiteralLength(text + rest) == |text|
    decreases |text|
  {
    if text != [] {
      assert (text + rest)[1..] == text[1..] + rest;
      LiteralLengthOf(text[1..], rest);
    } else {
      assert text + rest == rest;
    }
  }

  /** The variable `id` written with braces, `${id}`. */
  function Braced(id: string): string {
    "${" + id + "}"
  }

  /** The variable `id` written bare, `$id`. */
  function Bare(id: string): string {
    "$" + id
  }

  lemma TokenBraced(id: string, rest: string)
    requires IsIdentifier(id)
    ensures Token(Braced(id) + rest) == Some((VariablePair(id), |Braced(id)|))
  {
    var s := Braced(id) + rest;
    assert s[2..] == id + ("}" + rest);
    IdentifierLengthOf(id, "}" + rest);
    assert s[2..2 + |id|] == id;
  }

  lemma ParseBraced(id: string, rest: string, offset: nat)
    requires IsIdentifier(id)
    ensures Parse(Braced(id) + rest, offset) == Cons(VariablePair(id), Parse(rest, offset + |Braced(id)|))
  {
    TokenBraced(id, rest);
    assert (Braced(id) + rest)[|Braced(id)|..] == rest;
  }

  lemma TokenBare(id: string, rest: string)
    requires IsIdentifier(id) && EndsIdentifier(rest)
    ensures Token(Bare(id) + rest) == Some((VariablePair(id), |Bare(id)|))
  {
    var s := Bare(id) + rest;
    assert s[1..] == id + rest;
    IdentifierLengthOf(id, rest);
    assert s[1..1 + |id|] == id;
  }

  lemma ParseBare(id: string, rest: string, offset: nat)
    requires IsIdentifier(id) && EndsIdentifier(rest)
    ensures Parse(Bare(id) + rest, offset) == Cons(VariablePair(id), Parse(rest, offset + |Bare(id)|))
  {
    TokenBare(id, rest);
    assert (Bare(id) + rest)[|Bare(id)|..] == rest;
  }

  lemma TokenLiteral(text: string, rest: string)
    requires PlainText(text)
    requires rest == [] || rest[0] == '$'
    ensures Token(text + rest) == Some((LiteralPair(text), |text|))
  {
    LiteralLengthOf(text, rest);
    assert (text + rest)[..|text|] == text;
  }

  lemma ParseLiteral(text: string, rest: string, offset: nat)
    requires PlainText(text)
    requires rest == [] || rest[0] == '$'
    ensures Parse(text + rest, offset) == Cons(LiteralPair(text), Parse(rest, offset + |text|))
  {
    TokenLiteral(text, rest);
    assert (text + rest)[|text|..] == rest;
  }

  /**
   * A variable written `${name}` and the same variable written `$name` are the
   * same token, and both leave the same remainder to tokenize, as long as that
   * remainder cannot extend the name.
   */
  lemma BracedSameAsBare(id: string, rest: string)
    requires IsIdentifier(id) && EndsIdentifier(rest)
    ensures Token(Braced(id) + rest).Some? && Token(Bare(id) + rest).Some?
    ensures Token(Braced(id) + rest).value.0 == Token(Bare(id) + rest).value.0 == VariablePair(id)
    ensures (Braced(id) + rest)[Token(Braced(id) + rest).value.1..] == rest
    ensures (Bare(id) + rest)[Token(Bare(id) + rest).value.1..] == rest
  {
    TokenBraced(id, rest);
    TokenBare(id, rest);
    assert (Braced(id) + rest)[|Braced(id)|..] == rest;
    assert (Bare(id) + rest)[|Bare(id)|..] == rest;
  }

  /** Where the template starts changes only the reported error position. */
  lemma {:induction false} ParseSuccessIgnoresOffset(s: string, offset: nat, offset': nat)
    ensures Parse(s, offset).Success? <==> Parse(s, offset').Success?
    ensures Parse(s, offset).Success? ==> Parse(s, offset).value == Parse(s, offset').value
    decreases |s|
  {
    if s != [] {
      match Token(s)
      case None =>
      case Some((p, n)) =>
        ParseSuccessIgnoresOffset(s[n..], offset + n, offset' + n);
        assert Parse(s, offset) == Cons(p, Parse(s[n..], offset + n));
        assert Parse(s, offset') == Cons(p, Parse(s[n..], offset' + n));
    }
  }

  /** Literal text without a delimiter in it. */
  predicate PlainText(text: string) {
    text != [] && forall i :: 0 <= i < |text| ==> text[i] != '$'
  }

  /** Parsing past a variable written `${id}`. */
  lemma BracedThen(id: string, rest: string, offset: nat, ps: seq<Pair>)
    requires IsIdentifier(id)
    requires Parse(rest, offset + |Braced(id)|) == Success(ps)
    ensures Parse(Braced(id) + rest, offset) == Success([VariablePair(id)] + ps)
  {
    ParseBraced(id, rest, offset);
  }

  /** Parsing past a variable written `$id`. */
  lemma BareThen(id: string, rest: string, offset: nat, ps: seq<Pair>)
    requires IsIdentifier(id) && EndsIdentifier(rest)
    requires Parse(rest, offset + |Bare(id)|) == Success(ps)
    ensures Parse(Bare(id) + rest, offset) == Success([VariablePair(id)] + ps)
  {
    ParseBare(id, rest, offset);
  }

  /** Parsing past literal text that runs up to a delimiter or the end. */
  lemma LiteralThen(text: string, rest: string, offset: nat, ps: seq<Pair>)
    requires PlainText(text) && (rest == [] || rest[0] == '$')
    requires Parse(rest, offset + |text|) == Success(ps)
    ensures Parse(text + rest, offset) == Success([LiteralPair(text)] + ps)
  {
    ParseLiteral(text, rest, offset);
  }

  lemma ParseLastBraced(sep: string, y: string, offset: nat)
    requires PlainText(sep) && IsIdentifier(y)
    ensures Parse(sep + Braced(y), offset) == Success([LiteralPair(sep), VariablePair(y), EOI])
  {
    assert Parse("", offset + |sep| + |Braced(y)|) == Success([EOI]);
    BracedThen(y, "", offset + |sep|, [EOI]);
    assert Braced(y) + "" == Braced(y) && Braced(y)[0] == '$';
    assert [VariablePair(y)] + [EOI] == [VariablePair(y), EOI];
    LiteralThen(sep, Braced(y), offset, [VariablePair(y), EOI]);
    assert [LiteralPair(sep)] + [VariablePair(y), EOI] == [LiteralPair(sep), VariablePair(y), EOI];
  }

  lemma ParseLastBare(sep: string, y: string, offset: nat)
    requires PlainText(sep) && IsIdentifier(y)
    ensures Parse(sep + Bare(y), offset) == Success([LiteralPair(sep), VariablePair(y), EOI])
  {
    assert Parse("", offset + |sep| + |Bare(y)|) == Success([EOI]);
    BareThen(y, "", offset + |sep|, [EOI]);
    assert Bare(y) + "" == Bare(y) && Bare(y)[0] == '$';
    assert [VariablePair(y)] + [EOI] == [VariablePair(y), EOI];
    LiteralThen(sep, Bare(y), offset, [VariablePair(y), EOI]);
    assert [LiteralPair(sep)] + [VariablePair(y), EOI] == [LiteralPair(sep), VariablePair(y), EOI];
  }

  lemma ParseMiddleBraced(x: string, sep: string, y: string, offset: nat)
    requires PlainText(sep) && IsIdentifier(x) && IsIdentifier(y)
    ensures Parse(Braced(x) + (sep + Braced(y)), offset)
         == Success([VariablePair(x), LiteralPair(sep), VariablePair(y), EOI])
  {
    var tail := [LiteralPair(sep), VariablePair(y), EOI];
    ParseLastBraced(sep, y, offset + |Braced(x)|);
    BracedThen(x, sep + Braced(y), offset, tail);
    assert [VariablePair(x)] + tail == [VariablePair(x), LiteralPair(sep), VariablePair(y), EOI];
  }

  lemma ParseMiddleBare(x: string, sep: string, y: string, offset: nat)
    requires PlainText(sep) && !IsIdentifierChar(sep[0]) && IsIdentifier(x) && IsIdentifier(y)
    ensures Parse(Bare(x) + (sep + Bare(y)), offset)
         == Success([VariablePair(x), LiteralPair(sep), VariablePair(y), EOI])
  {
    var tail := [LiteralPair(sep), VariablePair(y), EOI];
    ParseLastBare(sep, y, offset + |Bare(x)|);
    BareThen(x, sep + Bare(y), offset, tail);
    assert [VariablePair(x)] + tail == [VariablePair(x), LiteralPair(sep), VariablePair(y), EOI];
  }

  /** `open${x}sep${y}` tokenizes to its four parts. */
  lemma ParseTwoBraced(open: string, x: string, sep: string, y: string, offset: nat)
    requires PlainText(open) && PlainText(sep) && IsIdentifier(x) && IsIdentifier(y)
    ensures Parse(open + (Braced(x) + (sep + Braced(y))), offset)
         == Success([LiteralPair(open), VariablePair(x), LiteralPair(sep), VariablePair(y), EOI])
  {
    var tail := [VariablePair(x), LiteralPair(sep), VariablePair(y), EOI];
    assert Parse(open + (Braced(x) + (sep + Braced(y))), offset) == Success([LiteralPair(open)] + tail) by {
      ParseMiddleBraced(x, sep, y, offset + |open|);
      LiteralThen(open, Braced(x) + (sep + Braced(y)), offset, tail);
    }
    assert [LiteralPair(open)] + tail == [LiteralPair(open), VariablePair(x), LiteralPair(sep), VariablePair(y), EOI];
  }

  /** `open$x sep$y` tokenizes to the same four parts when `sep` cannot continue the name `x`. */
  lemma ParseTwoBare(open: string, x: string, sep: string, y: string, offset: nat)
    requires PlainText(open) && PlainText(sep) && !IsIdentifierChar(sep[0]) && IsIdentifier(x) && IsIdentifier(y)
    ensures Parse(open + (Bare(x) + (sep + Bare(y))), offset)
         == Success([LiteralPair(open), VariablePair(x), LiteralPair(sep), VariablePair(y), EOI])
  {
    var tail := [VariablePair(x), LiteralPair(sep), VariablePair(y), EOI];
    assert Parse(open + (Bare(x) + (sep + Bare(y))), offset) == Success([LiteralPair(open)] + tail) by {
      ParseMiddleBare(x, sep, y, offset + |open|);
      LiteralThen(open, Bare(x) + (sep + Bare(y)), offset, tail);
    }
    assert [LiteralPair(open)] + tail == [LiteralPair(open), VariablePair(x), LiteralPair(sep), VariablePair(y), EOI];
  }

  lemma VariableNameIsIdentifier(v: Variable)
    ensures IsIdentifier(VariableName(v))
  {
  }

  lemma InstructionsSnoc(pairs: seq<Pair>, p: Pair)
    requires Instructions(pairs).Success? && Translate(p).Success?
    ensures Instructions(pairs + [p]) == Success(Instructions(pairs).value + Translate(p).value)
  {
    assert (pairs + [p])[..|pairs|] == pairs;
  }

  /** A variable named by its own name translates to that variable. */
  lemma TranslateVariable(v: Variable)
    ensures Translate(VariablePair(VariableName(v))) == Success([Variable(v)])
  {
    TryFromVariableName(v, "");
  }

  /** One more translatable pair extends the compiled instructions by its translation. */
  lemma InstructionsStep(pairs: seq<Pair>, p: Pair, acc: seq<FormatValue>, v: seq<FormatValue>)
    requires Instructions(pairs) == Success(acc) && Translate(p) == Success(v)
    ensures Instructions(pairs + [p]) == Success(acc + v)
  {
    InstructionsSnoc(pairs, p);
  }

  /** The pairs of a template with two known variables compile to its four instructions. */
  lemma InstructionsOfTwoVariables(open: string, v1: Variable, sep: string, v2: Variable)
    ensures Instructions([LiteralPair(open), VariablePair(VariableName(v1)), LiteralPair(sep), VariablePair(VariableName(v2)), EOI])
         == Success([Literal(open), Variable(v1), Literal(sep), Variable(v2)])
  {
    var p0, p1, p2, p3 := LiteralPair(open), VariablePair(VariableName(v1)), LiteralPair(sep), VariablePair(VariableName(v2));
    var i0, i1, i2, i3 := Literal(open), Variable(v1), Literal(sep), Variable(v2);
    assert Instructions([p0]) == Success([i0]) by {
      assert Instructions([]) == Success([]);
      InstructionsStep([], p0, [], [i0]);
      assert [] + [p0] == [p0] && [] + [i0] == [i0];
    }
    assert Instructions([p0, p1]) == Success([i0, i1]) by {
      TranslateVariable(v1);
      InstructionsStep([p0], p1, [i0], [i1]);
      assert [p0] + [p1] == [p0, p1] && [i0] + [i1] == [i0, i1];
    }
    assert Instructions([p0, p1, p2]) == Success([i0, i1, i2]) by {
      InstructionsStep([p0, p1], p2, [i0, i1], [i2]);
      assert [p0, p1] + [p2] == [p0, p1, p2] && [i0, i1] + [i2] == [i0, i1, i2];
    }
    assert Instructions([p0, p1, p2, p3]) == Success([i0, i1, i2, i3]) by {
      TranslateVariable(v2);
      InstructionsStep([p0, p1, p2], p3, [i0, i1, i2], [i3]);
      assert [p0, p1, p2] + [p3] == [p0, p1, p2, p3] && [i0, i1, i2] + [i3] == [i0, i1, i2, i3];
    }
    InstructionsStep([p0, p1, p2, p3], EOI, [i0, i1, i2, i3], []);
    assert [p0, p1, p2, p3] + [EOI] == [p0, p1, p2, p3, EOI] && [i0, i1, i2, i3] + [] == [i0, i1, i2, i3];
  }

  lemma RenderCons(i: FormatValue, rest: seq<FormatValue>, e: FilteredLogEvent)
    ensures Render([i] + rest, e) == RenderOne(i, e) + Render(rest, e)
  {
    assert ([i] + rest)[1..] == rest;
  }

  lemma RenderFour(i0: FormatValue, i1: FormatValue, i2: FormatValue, i3: FormatValue, e: FilteredLogEvent)
    ensures Render([i0, i1, i2, i3], e) == RenderOne(i0, e) + (RenderOne(i1, e) + (RenderOne(i2, e) + RenderOne(i3, e)))
  {
    RenderCons(i3, [], e);
    assert [i3] + [] == [i3] && RenderOne(i3, e) + "" == RenderOne(i3, e);
    RenderCons(i2, [i3], e);
    assert [i2] + [i3] == [i2, i3];
    RenderCons(i1, [i2, i3], e);
    assert [i1] + [i2, i3] == [i1, i2, i3];
    RenderCons(i0, [i1, i2, i3], e);
    assert [i0] + [i1, i2, i3] == [i0, i1, i2, i3];
  }

  /**
   * A template of two variables around literal text compiles, written with
   * braces or without, to the four instructions in order, which render the
   * two fields in place.
   */
  lemma CompileTwoVariables(template: string, open: string, v1: Variable, sep: string, v2: Variable, e: FilteredLogEvent)
    requires PlainText(open) && PlainText(sep) && !IsIdentifierChar(sep[0])
    requires template == open + (Braced(VariableName(v1)) + (sep + Braced(VariableName(v2))))
          || template == open + (Bare(VariableName(v1)) + (sep + Bare(VariableName(v2))))
    ensures CompileFormat(template) == Success(LogFormatter([Literal(open), Variable(v1), Literal(sep), Variable(v2)]))
    ensures Render(CompileFormat(template).value.instructions, e) == open + (Field(e, v1) + (sep + Field(e, v2)))
  {
    VariableNameIsIdentifier(v1);
    VariableNameIsIdentifier(v2);
    if template == open + (Braced(VariableName(v1)) + (sep + Braced(VariableName(v2)))) {
      ParseTwoBraced(open, VariableName(v1), sep, VariableName(v2), 0);
    } else {
      ParseTwoBare(open, VariableName(v1), sep, VariableName(v2), 0);
    }
    InstructionsOfTwoVariables(open, v1, sep, v2);
    RenderFour(Literal(open), Variable(v1), Literal(sep), Variable(v2), e);
  }

  /**
   * The default template `[${log_stream_name}] ${message}` and its form without
   * braces both compile to the formatter that prints the stream in brackets
   * before the message.
   */
  lemma DefaultFormatPasses(template: string, rfc3339: int -> string)
    requires template == "[" + (Braced(VariableName(LogStreamName)) + ("] " + Braced(VariableName(Message))))
          || template == "[" + (Bare(VariableName(LogStreamName)) + ("] " + Bare(VariableName(Message))))
    ensures CompileFormat(template).Success?
    ensures Render(CompileFormat(template).value.instructions, TestEvent(rfc3339)) == "[log-stream-name] message"
  {
    var e := TestEvent(rfc3339);
    var instructions := [Literal("["), Variable(LogStreamName), Literal("] "), Variable(Message)];
    assert CompileFormat(template) == Success(LogFormatter(instructions))
        && Render(instructions, e) == "[" + (e.logStreamName + ("] " + e.message)) by {
      CompileTwoVariables(template, "[", LogStreamName, "] ", Message, e);
    }
    TestLine(e.logStreamName, e.message);
  }

  lemma TestLine(stream: string, message: string)
    requires stream == "log-stream-name" && message == "message"
    ensures "[" + (stream + ("] " + message)) == "[log-stream-name] message"
  {
  }

  lemma InstructionsOfThree(v1: Variable, sep: string, v2: Variable)
    ensures Instructions([VariablePair(VariableName(v1)), LiteralPair(sep), VariablePair(VariableName(v2)), EOI])
         == Success([Variable(v1), Literal(sep), Variable(v2)])
  {
    var p0, p1, p2 := VariablePair(VariableName(v1)), LiteralPair(sep), VariablePair(VariableName(v2));
    var i0, i1, i2 := Variable(v1), Literal(sep), Variable(v2);
    assert Instructions([p0]) == Success([i0]) by {
      assert Instructions([]) == Success([]);
      TranslateVariable(v1);
      InstructionsStep([], p0, [], [i0]);
      assert [] + [p0] == [p0] && [] + [i0] == [i0];
    }
    assert Instructions([p0, p1]) == Success([i0, i1]) by {
      InstructionsStep([p0], p1, [i0], [i1]);
      assert [p0] + [p1] == [p0, p1] && [i0] + [i1] == [i0, i1];
    }
    assert Instructions([p0, p1, p2]) == Success([i0, i1, i2]) by {
      TranslateVariable(v2);
      InstructionsStep([p0, p1], p2, [i0, i1], [i2]);
      assert [p0, p1] + [p2] == [p0, p1, p2] && [i0, i1] + [i2] == [i0, i1, i2];
    }
    InstructionsStep([p0, p1, p2], EOI, [i0, i1, i2], []);
    assert [p0, p1, p2] + [EOI] == [p0, p1, p2, EOI] && [i0, i1, i2] + [] == [i0, i1, i2];
  }

  lemma RenderThree(i0: FormatValue, i1: FormatValue, i2: FormatValue, e: FilteredLogEvent)
    ensures Render([i0, i1, i2], e) == RenderOne(i0, e) + (RenderOne(i1, e) + RenderOne(i2, e))
  {
    RenderCons(i2, [], e);
    assert [i2] + [] == [i2] && RenderOne(i2, e) + "" == RenderOne(i2, e);
    RenderCons(i1, [i2], e);
    assert [i1] + [i2] == [i1, i2];
    RenderCons(i0, [i1, i2], e);
    assert [i0] + [i1, i2] == [i0, i1, i2];
  }

  /** `$x sep $y` compiles to its three instructions, which render the two fields around `sep`. */
  lemma CompileBareVariables(template: string, v1: Variable, sep: string, v2: Variable, e: FilteredLogEvent)
    requires PlainText(sep) && !IsIdentifierChar(sep[0])
    requires template == Bare(VariableName(v1)) + (sep + Bare(VariableName(v2)))
    ensures CompileFormat(template) == Success(LogFormatter([Variable(v1), Literal(sep), Variable(v2)]))
    ensures Render(CompileFormat(template).value.instructions, e) == Field(e, v1) + (sep + Field(e, v2))
  {
    VariableNameIsIdentifier(v1);
    VariableNameIsIdentifier(v2);
    ParseMiddleBare(VariableName(v1), sep, VariableName(v2), 0);
    InstructionsOfThree(v1, sep, v2);
    RenderThree(Variable(v1), Literal(sep), Variable(v2), e);
  }

  /** `$timestamp - $message` prints the timestamp's RFC 3339 text, a dash and the message. */
  lemma TimestampFormatPasses(template: string, rfc3339: int -> string)
    requires template == Bare(VariableName(Timestamp)) + (" - " + Bare(VariableName(Message)))
    requires rfc3339(1_404_810_610_789_101_234) == "2014-07-08T09:10:10.789Z"
    ensures CompileFormat(template).Success?
    ensures Render(CompileFormat(template).value.instructions, TestEvent(rfc3339)) == "2014-07-08T09:10:10.789Z - message"
  {
    var e := TestEvent(rfc3339);
    var instructions := [Variable(Timestamp), Literal(" - "), Variable(Message)];
    assert CompileFormat(template) == Success(LogFormatter(instructions))
        && Render(instructions, e) == e.timestampRfc3339 + (" - " + e.message) by {
      CompileBareVariables(template, Timestamp, " - ", Message, e);
    }
    TimestampLine(e.timestampRfc3339, e.message);
  }

  lemma TimestampLine(timestamp: string, message: string)
    requires timestamp == "2014-07-08T09:10:10.789Z" && message == "message"
    ensures timestamp + (" - " + message) == "2014-07-08T09:10:10.789Z - message"
  {
  }

  /** `$$` prints a single `$`. */
  lemma JustEscapedDelimiterPasses(e: FilteredLogEvent)
    ensures CompileFormat("$$") == Success(LogFormatter([EscapedDelimeter]))
    ensures Render(CompileFormat("$$").value.instructions, e) == "$"
  {
    assert "$$"[2..] == [];
    assert [EscapedDelimiterPair] + [EOI] == [EscapedDelimiterPair, EOI];
    assert Parse("$$", 0) == Success([EscapedDelimiterPair, EOI]);
    assert Instructions([]) == Success([]);
    InstructionsSnoc([], EscapedDelimiterPair);
    assert [] + [EscapedDelimiterPair] == [EscapedDelimiterPair];
    assert [] + [EscapedDelimeter] == [EscapedDelimeter] && [EscapedDelimeter] + [] == [EscapedDelimeter];
    InstructionsSnoc([EscapedDelimiterPair], EOI);
    assert Instructions([EscapedDelimiterPair, EOI]) == Success([EscapedDelimeter]);
    RenderCons(EscapedDelimeter, [], e);
    assert [EscapedDelimeter] + [] == [EscapedDelimeter];
  }

  /** A lone `$` starts no token: the template is rejected at its first character. */
  lemma JustDelimiterFails()
    ensures CompileFormat("$") == Failure(CompileError(ParseError(0)))
  {
  }
}
