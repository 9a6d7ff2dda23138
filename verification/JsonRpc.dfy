/** The second implementation of the framing (jsonrpc/jsonrpc.go): a reader that takes one payload
    from a buffered stream, and a writer. The reader goes line by line: a blank line ends the header,
    a line without a colon or with a length that is not a number is an error, and other fields are
    passed over. It shares with the client's decoder only the format, so the two are proved to agree
    on what the writers send. */
module JsonRpc {
  import opened Basics
  import opened Frames

  datatype ReadResult =
    | Payload(payload: Bytes, rest: Bytes)
    | EndOfInput
    | MalformedHeader(line: Bytes)
    | InvalidLength(value: Bytes)
    | MissingLength
    | UnexpectedEnd

  /** The length of the first line with its line feed. */
  function LineLength(s: Bytes): (r: Option<nat>)
    ensures r.Some? ==> 0 < r.value <= |s|
  {
    if s == [] then None
    else if s[0] == '\n' then Some(1)
    else
      var n := LineLength(s[1..]);
      if n.None? then None else Some(n.value + 1)
  }

  /** A line without its trailing carriage returns and line feeds. */
  function TrimLineEnd(s: Bytes): Bytes {
    if s != [] && IsLineEnd(s[|s| - 1]) then TrimLineEnd(s[..|s| - 1]) else s
  }

  function TrimLeft(s: Bytes): Bytes {
    if s != [] && IsSpace(s[0]) then TrimLeft(s[1..]) else s
  }

  function TrimRight(s: Bytes): Bytes {
    if s != [] && IsSpace(s[|s| - 1]) then TrimRight(s[..|s| - 1]) else s
  }

  function TrimSpace(s: Bytes): Bytes {
    TrimRight(TrimLeft(s))
  }

  /** The position of the first colon. */
  function ColonAt(s: Bytes): (r: Option<nat>)
    ensures r.Some? ==> r.value < |s|
  {
    if s == [] then None
    else if s[0] == ':' then Some(0)
    else
      var n := ColonAt(s[1..]);
      if n.None? then None else Some(n.value + 1)
  }

  predicate AllDigits(s: Bytes) {
    s != [] && forall c <- s :: IsDigit(c)
  }

  /** A decimal number with an optional sign. */
  function Atoi(s: Bytes): Option<int> {
    if AllDigits(s) then Some(ParseDecimal(s))
    else if s != [] && s[0] == '+' && AllDigits(s[1..]) then Some(ParseDecimal(s[1..]))
    else if s != [] && s[0] == '-' && AllDigits(s[1..]) then Some(0 - ParseDecimal(s[1..]) as int)
    else None
  }

  /** What one header line says: an error, a new length, or nothing. */
  datatype HeaderLine = BadLine | BadLength(value: Bytes) | Length(length: int) | OtherField

  function ReadHeaderLine(line: Bytes): HeaderLine {
    var text := TrimLineEnd(line);
    var colon := ColonAt(text);
    if colon.None? then BadLine
    else if LowerAll(TrimSpace(text[..colon.value])) != FIELD then OtherField
    else
      var value := text[colon.value + 1..];
      var length := Atoi(TrimSpace(value));
      if length.None? then BadLength(value) else Length(length.value)
  }

  function ReadBody(s: Bytes, length: int): ReadResult {
    if length < 0 then MissingLength
    else if |s| < length then UnexpectedEnd
    else Payload(s[..length], s[length..])
  }

  /** Reads header lines, and then the payload; `length` is the last Content-Length so far. */
  function ReadFrom(s: Bytes, length: int): ReadResult
    decreases |s|
  {
    var n := LineLength(s);
    if n.None? then EndOfInput
    else
      var line, rest := s[..n.value], s[n.value..];
      if line == "\r\n" then ReadBody(rest, length)
      else
        match ReadHeaderLine(line)
        case BadLine => MalformedHeader(line)
        case BadLength(value) => InvalidLength(value)
        case Length(l) => ReadFrom(rest, l)
        case OtherField => ReadFrom(rest, length)
  }

  function ReadOnePayload(s: Bytes): ReadResult {
    ReadFrom(s, -1)
  }

  /** A buffered reader: the bytes that are still to be read. */
  class Reader {
    var input: Bytes

    constructor (input: Bytes)
      ensures this.input == input
    {
      this.input := input;
    }

    /** Reads one payload, and leaves the rest of the stream when there was one. */
    method ReadPayload() returns (result: ReadResult)
      modifies this
      ensures result == ReadOnePayload(old(input))
      ensures result.Payload? ==> input == result.rest
    {
      var contentLength := -1;
      while true
        invariant ReadOnePayload(old(input)) == ReadFrom(input, contentLength)
        decreases |input|
      {
        var n := LineLength(input);
        if n.None? {
          return EndOfInput;
        }
        var line := input[..n.value];
        input := input[n.value..];
        if line == "\r\n" {
          break;
        }
        var text := TrimLineEnd(line);
        var colon := ColonAt(text);
        if colon.None? {
          return MalformedHeader(line);
        }
        if LowerAll(TrimSpace(text[..colon.value])) == FIELD {
          var value := text[colon.value + 1..];
          var length := Atoi(TrimSpace(value));
          if length.None? {
            return InvalidLength(value);
          }
          contentLength := length.value;
        }
      }
      result := ReadBody(input, contentLength);
      if result.Payload? {
        input := result.rest;
      }
    }
  }

  /** A stream that responses are written to. */
  class Writer {
    var output: Bytes

    method WriteResponse(payload: Bytes)
      modifies this
      ensures output == old(output) + EncodeFrame(payload)
    {
      output := output + ("Content-Length: " + Decimal(|payload|) + "\r\n\r\n");
      output := output + payload;
    }
  }

  // -------------------------------------------------------------------------- round trip

  lemma {:induction false} LineLengthAfter(s: Bytes, n: nat)
    requires n < |s| && s[n] == '\n' && forall i | 0 <= i < n :: s[i] != '\n'
    ensures LineLength(s) == Some(n + 1)
  {
    if n > 0 {
      LineLengthAfter(s[1..], n - 1);
    }
  }

  /** The line that the encoders write says the length. */
  lemma LengthLine(n: nat)
    ensures ReadHeaderLine(Header(n) + "\r\n") == Length(n)
  {
    var h, digits := Header(n), Decimal(n);
    var line := h + "\r\n";
    DecimalRoundTrip(n);
    assert h[|h| - 1] in digits by { assert h[|h| - 1] == digits[|digits| - 1]; }
    assert !IsLineEnd(h[|h| - 1]);
    TrimLineEndAfter(h);
    ColonOfHeader(n);
    assert h[..14] == "Content-Length" && h[15..] == " " + digits;
    TrimSpaceOfField("Content-Length");
    FieldInLowerCase();
    TrimSpaceBefore(digits);
    assert AllDigits(digits) && Atoi(digits) == Some(n);
  }

  lemma TrimSpaceOfField(field: Bytes)
    requires field != [] && !IsSpace(field[0]) && !IsSpace(field[|field| - 1])
    ensures TrimSpace(field) == field
  {
  }

  lemma TrimSpaceBefore(digits: Bytes)
    requires digits != [] && forall c <- digits :: IsDigit(c)
    ensures TrimSpace(" " + digits) == digits
  {
    assert (" " + digits)[1..] == digits && (" " + digits)[0] == ' ';
    assert digits[0] in digits && digits[|digits| - 1] in digits;
    assert TrimLeft(" " + digits) == TrimLeft(digits) == digits;
  }

  lemma TrimLineEndAfter(h: Bytes)
    requires h != [] && !IsLineEnd(h[|h| - 1])
    ensures TrimLineEnd(h + "\r\n") == h
  {
    var one := h + "\r";
    assert (h + "\r\n")[..|h| + 1] == one && one[..|h|] == h;
    assert TrimLineEnd(one) == TrimLineEnd(h) == h;
  }

  lemma ColonOfHeader(n: nat)
    ensures ColonAt(Header(n)) == Some(14)
  {
    ColonAfter("Content-Length", " " + Decimal(n));
    assert Header(n) == "Content-Length" + ":" + (" " + Decimal(n));
  }

  lemma {:induction false} ColonAfter(name: Bytes, rest: Bytes)
    requires forall i | 0 <= i < |name| :: name[i] != ':'
    ensures ColonAt(name + ":" + rest) == Some(|name|)
  {
    if name == [] {
      assert (name + ":" + rest)[0] == ':';
    } else {
      assert (name + ":" + rest)[1..] == name[1..] + ":" + rest;
      ColonAfter(name[1..], rest);
    }
  }

  /** The reader gives back each payload that the encoders write, and leaves the rest. */
  lemma ReadOfEncoded(payload: Bytes, rest: Bytes)
    ensures ReadOnePayload(EncodeFrame(payload) + rest) == Payload(payload, rest)
  {
    var h := Header(|payload|);
    var s := EncodeFrame(payload) + rest;
    HeaderHasNoLineFeed(|payload|);
    LengthLine(|payload|);
    var body := payload + rest;
    assert s == h + "\r\n" + ("\r\n" + body);
    assert forall i | 0 <= i < |h| :: s[i] == h[i];
    LineLengthAfter(s, |h| + 1);
    assert s[..|h| + 2] == h + "\r\n" && s[|h| + 2..] == "\r\n" + body;
    assert ReadFrom(s, -1) == ReadFrom("\r\n" + body, |payload|);
    LineLengthAfter("\r\n" + body, 1);
    assert ("\r\n" + body)[..2] == "\r\n" && ("\r\n" + body)[2..] == body;
    assert body[..|payload|] == payload && body[|payload|..] == rest;
    assert h + "\r\n" != "\r\n";
  }

  lemma HeaderHasNoLineFeed(n: nat)
    ensures forall j | 0 <= j < |Header(n)| :: Header(n)[j] != '\n'
  {
    var h, digits := Header(n), Decimal(n);
    DecimalRoundTrip(n);
    assert forall j | 0 <= j < |digits| :: digits[j] in digits;
    assert forall j | 16 <= j < |h| :: h[j] == digits[j - 16];
  }

  /** On the messages of a stream the two implementations agree: whatever the client's decoder
      would take first, the reader reads first, and both leave the same bytes. */
  lemma ReaderAgreesWithDecoder(messages: seq<Bytes>, tail: Bytes, isJson: Bytes -> bool)
    requires messages != [] && isJson(messages[0])
    ensures var s := EncodeAll(messages) + tail;
            && ReadOnePayload(s) == Payload(messages[0], EncodeAll(messages[1..]) + tail)
            && FrontOf(s, isJson) == Frame(messages[0], EncodeAll(messages[1..]) + tail)
  {
    var rest := EncodeAll(messages[1..]) + tail;
    assert EncodeAll(messages) + tail == EncodeFrame(messages[0]) + rest;
    ReadOfEncoded(messages[0], rest);
    FrontOfEncoded(messages[0], rest, isJson);
  }
}
