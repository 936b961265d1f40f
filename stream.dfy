/** The server-sent-event reader of the translation page (script.js,
    `processStream`): decoded pieces of the response body are cut into lines
    at `'\n'`, the text after the last `'\n'` is carried over to the next
    read, and each complete `data:` line is handed to a JSON parser whose
    text content is passed to the page's callback and accumulated. */
module Stream {
  import opened Wrappers
  import opened Seqs
  import opened Text

  /** An exception as the page distinguishes them: an `AbortError`, or any
      other error with its message. */
  datatype JsError = AbortError | Error(message: string)

  const NoBodyMessage := "ReadableStream not supported in this browser or response body is null."

  /** The first choice of a parsed payload: `delta.content`, `text` and
      `message.content`, `None` where the property is missing. */
  datatype Choice = Choice(deltaContent: Option<string>, text: Option<string>, messageContent: Option<string>)

  /** What `JSON.parse` makes of a payload: it throws, or it yields an object
      whose `choices[0]` is missing or present. */
  datatype Payload = Unparseable | Parsed(choice: Option<Choice>)

  /** How the reads end: the reader reports `done`, with what the final
      `decoder.decode()` returns, or a read rejects with an error. */
  datatype StreamEnd = Done(flushed: string) | Interrupted(error: JsError)

  function Truthy(v: Option<string>): bool
  {
    v.Some? && v.value != ""
  }

  /** The text a choice contributes: the first non-empty of `delta.content`,
      `text` and `message.content`, or nothing. */
  function ChoiceText(c: Choice): (r: string)
    ensures r != "" <==> Truthy(c.deltaContent) || Truthy(c.text) || Truthy(c.messageContent)
    ensures Truthy(c.deltaContent) ==> r == c.deltaContent.value
    ensures !Truthy(c.deltaContent) && Truthy(c.text) ==> r == c.text.value
    ensures !Truthy(c.deltaContent) && !Truthy(c.text) && Truthy(c.messageContent) ==> r == c.messageContent.value
  {
    if Truthy(c.deltaContent) then c.deltaContent.value
    else if Truthy(c.text) then c.text.value
    else if Truthy(c.messageContent) then c.messageContent.value
    else ""
  }

  /** The text one complete line contributes, `""` for none: only a trimmed
      line starting with `data:` whose trimmed payload is neither empty nor
      `[DONE]` reaches the parser, and a payload it cannot parse is skipped. */
  function LineText(line: string, parse: string -> Payload): string
  {
    var t := Trim(line, JsSpace);
    if t == "" || t == "data: [DONE]" then ""
    else if IsPrefix("data:", t) then
      var payload := Trim(t[5..], JsSpace);
      if payload == "" || payload == "[DONE]" then ""
      else match parse(payload)
        case Unparseable => ""
        case Parsed(None) => ""
        case Parsed(Some(c)) => ChoiceText(c)
    else ""
  }

  /** The callback arguments for a run of complete lines, in order. */
  function Emissions(lines: seq<string>, parse: string -> Payload): (r: seq<string>)
    ensures forall i | 0 <= i < |r| :: r[i] != ""
    decreases |lines|
  {
    if |lines| == 0 then []
    else
      var e := LineText(lines[|lines| - 1], parse);
      Emissions(lines[..|lines| - 1], parse) + (if e == "" then [] else [e])
  }

  lemma {:induction false} EmissionsAppend(a: seq<string>, b: seq<string>, parse: string -> Payload)
    ensures Emissions(a + b, parse) == Emissions(a, parse) + Emissions(b, parse)
    decreases |b|
  {
    if |b| == 0 {
      assert a + b == a;
    } else {
      var init, last := b[..|b| - 1], b[|b| - 1];
      assert b == init + [last];
      assert a + b == (a + init) + [last];
      EmissionsAppend(a, init, parse);
      EmissionsSnoc(a + init, last, parse);
      EmissionsSnoc(init, last, parse);
      var e := LineText(last, parse);
      AppendAssoc(Emissions(a, parse), Emissions(init, parse), if e == "" then [] else [e]);
    }
  }

  lemma EmissionsSnoc(lines: seq<string>, line: string, parse: string -> Payload)
    ensures var e := LineText(line, parse);
      Emissions(lines + [line], parse) == Emissions(lines, parse) + (if e == "" then [] else [e])
  {
    var xs := lines + [line];
    assert xs[..|xs| - 1] == lines && xs[|xs| - 1] == line;
  }

  /** One more complete line: the callback arguments so far are extended by
      what that line contributes, if anything. */
  lemma EmissionsStep(lines: seq<string>, j: nat, parse: string -> Payload, delivered: seq<string>)
    requires j < |lines|
    requires delivered == Emissions(lines[..j], parse)
    ensures var text := LineText(lines[j], parse);
      && (text == "" ==> delivered == Emissions(lines[..j + 1], parse))
      && (text != "" ==> delivered + [text] == Emissions(lines[..j + 1], parse))
  {
    assert lines[..j + 1][..j] == lines[..j];
  }

  /** The accumulated translation grows with each callback argument. */
  lemma AccumulateStep(delivered: seq<string>, before: string, complete: string, text: string)
    requires complete == before + Flatten(delivered)
    ensures complete + text == before + Flatten(delivered + [text])
  {
    FlattenSnoc(delivered, text);
  }

  /** A `data: [DONE]` line is skipped, not a terminator: what follows it is
      still delivered. */
  lemma DoneIsSkipped(a: seq<string>, done: string, b: seq<string>, parse: string -> Payload)
    requires Trim(done, JsSpace) == "data: [DONE]"
    ensures Emissions(a + [done] + b, parse) == Emissions(a, parse) + Emissions(b, parse)
  {
    EmissionsAppend(a + [done], b, parse);
    EmissionsAppend(a, [done], parse);
    EmissionsDone(done, parse);
  }

  lemma EmissionsDone(done: string, parse: string -> Payload)
    requires Trim(done, JsSpace) == "data: [DONE]"
    ensures Emissions([done], parse) == []
  {
    DoneLine(done, parse);
    assert [done][..0] == [];
  }

  lemma DoneLine(done: string, parse: string -> Payload)
    requires Trim(done, JsSpace) == "data: [DONE]"
    ensures LineText(done, parse) == ""
  {
  }

  /** A line contributes text only when, trimmed, it starts with `data:`
      and its trimmed payload is neither empty nor `[DONE]` and parses to an
      object with a first choice; the text is then that choice's. */
  lemma LineParsed(line: string, parse: string -> Payload)
    ensures var r := LineText(line, parse);
      r != "" ==>
        var t := Trim(line, JsSpace);
        && IsPrefix("data:", t)
        && var payload := Trim(t[5..], JsSpace);
           && payload != "" && payload != "[DONE]"
           && parse(payload).Parsed? && parse(payload).choice.Some?
           && r == ChoiceText(parse(payload).choice.value)
  {
  }

  /** A line that does not start with `data:` once trimmed contributes
      nothing, and neither does a `data:` line whose payload the parser
      rejects. */
  lemma LineSkipped(line: string, parse: string -> Payload)
    ensures var t := Trim(line, JsSpace);
      && (!IsPrefix("data:", t) ==> LineText(line, parse) == "")
      && (IsPrefix("data:", t) && parse(Trim(t[5..], JsSpace)) == Unparseable ==> LineText(line, parse) == "")
  {
  }

  /** A `data:` line whose payload is neither empty nor `[DONE]` and parses
      to an object with a first choice contributes that choice's text. */
  lemma LineDelivers(line: string, parse: string -> Payload, c: Choice)
    requires IsPrefix("data:", Trim(line, JsSpace))
    requires var payload := Trim(Trim(line, JsSpace)[5..], JsSpace);
      payload != "" && payload != "[DONE]" && parse(payload) == Parsed(Some(c))
    ensures LineText(line, parse) == ChoiceText(c)
  {
    DonePayload();
  }

  /** The payload of the `[DONE]` line is `[DONE]`. */
  lemma DonePayload()
    ensures Trim("data: [DONE]"[5..], JsSpace) == "[DONE]"
  {
    assert "data: [DONE]"[5..] == " " + "[DONE]" + [];
    TrimSurround(" ", "[DONE]", [], JsSpace);
  }

  /** The complete lines of a text: everything before its last `'\n'`, cut at
      each `'\n'`. */
  function CompleteLines(s: string): seq<string>
  {
    var pieces := SplitOn(s, '\n');
    pieces[..|pieces| - 1]
  }

  /** The unterminated text after the last `'\n'`. */
  function Carry(s: string): string
  {
    var pieces := SplitOn(s, '\n');
    pieces[|pieces| - 1]
  }

  /** Text after the last line break is never parsed: appending an
      unterminated line adds no complete line. */
  lemma UnterminatedLineIgnored(s: string, x: string)
    requires forall k | 0 <= k < |x| :: x[k] != '\n'
    ensures CompleteLines(s + x) == CompleteLines(s)
    ensures Carry(s + x) == Carry(s) + x
  {
    SplitOnAppend(s, x, '\n');
    var ps := SplitOn(s, '\n');
    SplitOnPiecesFree(s, '\n');
    var last := ps[|ps| - 1];
    assert forall k | 0 <= k < |last| :: last[k] != '\n';
    assert forall k | 0 <= k < |last + x| :: (last + x)[k] != '\n' by {
      forall k | 0 <= k < |last + x| ensures (last + x)[k] != '\n' {
        if k < |last| { assert (last + x)[k] == last[k]; } else { assert (last + x)[k] == x[k - |last|]; }
      }
    }
    SplitOnFree(last + x, [], '\n');
  }

  /** Reading `a` and then `x` gives the complete lines of `a`, followed by
      the complete lines of what `a` carried followed by `x`. */
  lemma LinesAfterRead(a: string, x: string)
    ensures CompleteLines(a + x) == CompleteLines(a) + CompleteLines(Carry(a) + x)
    ensures Carry(a + x) == Carry(Carry(a) + x)
  {
    SplitOnAppend(a, x, '\n');
    var ps := SplitOn(a, '\n');
    var qs := SplitOn(Carry(a) + x, '\n');
    assert SplitOn(a + x, '\n') == ps[..|ps| - 1] + qs;
    assert (ps[..|ps| - 1] + qs)[..|ps| - 1 + |qs| - 1] == ps[..|ps| - 1] + qs[..|qs| - 1];
  }

  /** The callback arguments of a whole stream. They depend only on the
      concatenated text, not on how it was cut into reads; a final decoder
      flush is delivered as it is when text was left unterminated. */
  function StreamEmissions(received: seq<string>, end: StreamEnd, parse: string -> Payload): seq<string>
  {
    var all := Flatten(received);
    Emissions(CompleteLines(all), parse)
    + (if end.Done? && Carry(all) != "" && end.flushed != "" then [end.flushed] else [])
  }

  /** What `processStream` returns or throws. */
  function StreamResult(hasBody: bool, received: seq<string>, end: StreamEnd, parse: string -> Payload)
    : Result<string, JsError>
  {
    if !hasBody then Failure(Error(NoBodyMessage))
    else match end
      case Interrupted(e) => Failure(e)
      case Done(_) => Success(Flatten(StreamEmissions(received, end, parse)))
  }

  /** One more read: the carried text and the callback arguments so far
      determine those after the read. */
  lemma ReadStep(received: seq<string>, i: nat, parse: string -> Payload)
    requires i < |received|
    ensures Carry(Flatten(received[..i + 1])) == Carry(Carry(Flatten(received[..i])) + received[i])
    ensures Emissions(CompleteLines(Flatten(received[..i + 1])), parse)
         == Emissions(CompleteLines(Flatten(received[..i])), parse)
          + Emissions(CompleteLines(Carry(Flatten(received[..i])) + received[i]), parse)
  {
    var before := Flatten(received[..i]);
    assert received[..i + 1] == received[..i] + [received[i]];
    FlattenAppend(received[..i], [received[i]]);
    FlattenOne(received[i]);
    LinesAfterRead(before, received[i]);
    EmissionsAppend(CompleteLines(before), CompleteLines(Carry(before) + received[i]), parse);
  }

  /** The reader: `received` holds the decoded pieces in order, `end` what ends
      them. Returns what `processStream` returns or throws and the arguments
      of the callback, in call order. */
  method ProcessStream(hasBody: bool, received: seq<string>, end: StreamEnd, parse: string -> Payload)
    returns (result: Result<string, JsError>, emitted: seq<string>)
    ensures result == StreamResult(hasBody, received, end, parse)
    ensures emitted == if hasBody then StreamEmissions(received, end, parse) else []
    ensures result.Success? ==> result.value == Flatten(emitted)
  {
    if !hasBody {
      return Failure(Error(NoBodyMessage)), [];
    }
    var buffer := "";
    var complete := "";
    emitted := [];
    var i := 0;
    while i < |received|
      invariant 0 <= i <= |received|
      invariant buffer == Carry(Flatten(received[..i]))
      invariant emitted == Emissions(CompleteLines(Flatten(received[..i])), parse)
      invariant complete == Flatten(emitted)
    {
      ReadStep(received, i, parse);
      var pieces := SplitOn(buffer + received[i], '\n');
      var lines := pieces[..|pieces| - 1];
      assert lines == CompleteLines(buffer + received[i]);
      buffer := pieces[|pieces| - 1];
      var delivered, text := DeliverLines(lines, parse);
      FlattenAppend(emitted, delivered);
      emitted := emitted + delivered;
      complete := complete + text;
      i := i + 1;
    }
    assert received[..|received|] == received;
    match end {
      case Interrupted(e) =>
        return Failure(e), emitted;
      case Done(flushed) =>
        if buffer != "" && flushed != "" {
          FlattenSnoc(emitted, flushed);
          complete := complete + flushed;
          emitted := emitted + [flushed];
        }
        assert emitted == StreamEmissions(received, end, parse);
        assert StreamResult(hasBody, received, end, parse) == Success(Flatten(emitted));
        return Success(complete), emitted;
    }
  }

  /** The inner loop over the complete lines of one read: the callback
      arguments they produce, in order, and their concatenation. */
  method DeliverLines(lines: seq<string>, parse: string -> Payload)
    returns (delivered: seq<string>, complete: string)
    ensures delivered == Emissions(lines, parse)
    ensures complete == Flatten(delivered)
  {
    delivered, complete := [], "";
    for j := 0 to |lines|
      invariant delivered == Emissions(lines[..j], parse)
      invariant complete == Flatten(delivered)
    {
      EmissionsStep(lines, j, parse, delivered);
      var text := LineText(lines[j], parse);
      if text != "" {
        AccumulateStep(delivered, "", complete, text);
        complete := complete + text;
        delivered := delivered + [text];
      }
    }
    assert lines[..|lines|] == lines;
  }
}
