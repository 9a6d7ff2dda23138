/** Content-Length framing (packages/client/src/frames.ts, handleStdout of
    packages/client/src/client.ts, and jsonrpc/jsonrpc.go). */
module Frames {
  // A byte string has one char per byte, and a message is its JSON text.

  import opened Basics

  const SEPARATOR: Bytes := "\r\n\r\n"
  const FIELD: Bytes := "content-length"

  // ------------------------------------------------------------------------- characters

  predicate IsDigit(c: char) {
    '0' <= c <= '9'
  }

  /** ASCII white space. */
  predicate IsSpace(c: char) {
    c == ' ' || '\t' <= c <= '\r'
  }

  predicate IsLineEnd(c: char) {
    c == '\n' || c == '\r'
  }

  function Lower(c: char): char {
    if 'A' <= c <= 'Z' then (c as int + 32) as char else c
  }

  function LowerAll(s: Bytes): Bytes {
    seq(|s|, i requires 0 <= i < |s| => Lower(s[i]))
  }

  /** The end of a run of characters that starts at a position. */
  function RunEnd(s: Bytes, from: nat, inRun: char -> bool): (end: nat)
    requires from <= |s|
    ensures from <= end <= |s|
    decreases |s| - from
  {
    if from == |s| || !inRun(s[from]) then from else RunEnd(s, from + 1, inRun)
  }

  const DIGIT: char -> bool := c => IsDigit(c)
  const SPACE: char -> bool := c => IsSpace(c)

  // ----------------------------------------------------------------------------- numbers

  function Digit(d: int): char
    requires 0 <= d < 10
  {
    ('0' as int + d) as char
  }

  function Decimal(n: nat): Bytes {
    if n < 10 then [Digit(n)] else Decimal(n / 10) + [Digit(n % 10)]
  }

  function ParseDecimal(s: Bytes): nat
    requires forall c <- s :: IsDigit(c)
  {
    if s == [] then 0
    else
      assert IsDigit(s[|s| - 1]);
      ParseDecimal(s[..|s| - 1]) * 10 + (s[|s| - 1] as int - '0' as int)
  }

  lemma {:induction false} DecimalRoundTrip(n: nat)
    ensures Decimal(n) != [] && forall c <- Decimal(n) :: IsDigit(c)
    ensures ParseDecimal(Decimal(n)) == n
  {
    if n >= 10 {
      DecimalRoundTrip(n / 10);
      var s := Decimal(n);
      assert s[..|s| - 1] == Decimal(n / 10);
      forall c | c in s
        ensures IsDigit(c)
      {
        assert c in Decimal(n / 10) || c == Digit(n % 10);
      }
    }
  }

  // ------------------------------------------------------------------------------ frames

  function Header(length: nat): Bytes {
    "Content-Length: " + Decimal(length)
  }

  function EncodeFrame(payload: Bytes): Bytes {
    Header(|payload|) + SEPARATOR + payload
  }

  /** The first position of the separator at or after a position. */
  function FindSeparator(s: Bytes, from: nat): (r: Option<nat>)
    ensures r.Some? ==> from <= r.value <= |s| - 4
    decreases |s| - from
  {
    if from + 4 > |s| then None
    else if s[from..from + 4] == SEPARATOR then Some(from)
    else FindSeparator(s, from + 1)
  }

  /** The digits of a Content-Length line that starts at a position: the name in any case, a
      colon, white space, digits, and the end of the line. */
  function LengthAt(header: Bytes, p: nat): Option<nat>
    requires p <= |header|
  {
    var colon := p + |FIELD|;
    if colon >= |header| || LowerAll(header[p..colon]) != FIELD || header[colon] != ':' then None
    else
      var from := RunEnd(header, colon + 1, SPACE);
      var end := RunEnd(header, from, DIGIT);
      if end == from || (end < |header| && !IsLineEnd(header[end])) then None
      else
        RunIsUniform(header, from, DIGIT);
        Some(ParseDecimal(header[from..end]))
  }

  lemma {:induction false} RunIsUniform(s: Bytes, from: nat, inRun: char -> bool)
    requires from <= |s|
    ensures forall c <- s[from..RunEnd(s, from, inRun)] :: inRun(c)
    decreases |s| - from
  {
    if from < |s| && inRun(s[from]) {
      RunIsUniform(s, from + 1, inRun);
      assert s[from..RunEnd(s, from, inRun)] == [s[from]] + s[from + 1..RunEnd(s, from, inRun)];
    }
  }

  /** The first Content-Length line at or after a position. */
  function FindLength(header: Bytes, p: nat): Option<nat>
    requires p <= |header|
    decreases |header| - p
  {
    if (p == 0 || IsLineEnd(header[p - 1])) && LengthAt(header, p).Some? then LengthAt(header, p)
    else if p == |header| then None
    else FindLength(header, p + 1)
  }

  /** The state of a buffer: it needs more bytes, it starts with a wrong header or a payload that
      is not JSON, or it starts with a frame. */
  datatype Front = Incomplete | Bad | Frame(payload: Bytes, rest: Bytes)

  /** The front when so many bytes of the body are announced. */
  function Cut(body: Bytes, length: nat, isJson: Bytes -> bool): (r: Front)
    ensures r.Frame? ==> |r.rest| <= |body|
  {
    if |body| < length then Incomplete
    else if !isJson(body[..length]) then Bad
    else Frame(body[..length], body[length..])
  }

  function FrontOf(s: Bytes, isJson: Bytes -> bool): (r: Front)
    ensures r.Frame? ==> |r.rest| < |s|
  {
    var end := FindSeparator(s, 0);
    if end.None? then Incomplete
    else
      var length := FindLength(s[..end.value], 0);
      if length.None? then Bad else Cut(s[end.value + |SEPARATOR|..], length.value, isJson)
  }

  /** The result of decoding a stream: its messages, the bytes that are left, and whether what is
      left starts with something that cannot be decoded. */
  datatype Decoded = Decoded(messages: seq<Bytes>, rest: Bytes, bad: bool)

  /** Decodes a whole stream by taking one front after the other. */
  function DecodeBy(front: Bytes -> Front, s: Bytes): Decoded
    decreases |s|
  {
    var f := front(s);
    if f.Frame? && |f.rest| < |s| then
      var later := DecodeBy(front, f.rest);
      Decoded([f.payload] + later.messages, later.rest, later.bad)
    else Decoded([], s, !f.Incomplete?)
  }

  function FrontFor(isJson: Bytes -> bool): Bytes -> Front {
    s => FrontOf(s, isJson)
  }

  /** Decodes a whole stream. `isJson` tells which payloads parse. */
  function Decode(s: Bytes, isJson: Bytes -> bool): Decoded {
    DecodeBy(FrontFor(isJson), s)
  }

  // --------------------------------------------------------------------------- streaming

  lemma {:induction false} SeparatorStays(a: Bytes, b: Bytes, from: nat)
    requires FindSeparator(a, from).Some?
    ensures FindSeparator(a + b, from) == FindSeparator(a, from)
    decreases |a| - from
  {
    assert (a + b)[from..from + 4] == a[from..from + 4];
    if a[from..from + 4] != SEPARATOR {
      SeparatorStays(a, b, from + 1);
    }
  }

  /** More bytes do not change a front that is already decided. */
  ghost predicate IsStable(front: Bytes -> Front) {
    forall a: Bytes, b: Bytes {:trigger front(a + b)} ::
      && (front(a).Bad? ==> front(a + b).Bad?)
      && (front(a).Frame? ==> |front(a).rest| < |a| && front(a + b) == Frame(front(a).payload, front(a).rest + b))
  }

  lemma FrontIsStable(isJson: Bytes -> bool)
    ensures IsStable(FrontFor(isJson))
  {
    var front := FrontFor(isJson);
    forall a: Bytes, b: Bytes
      ensures front(a).Bad? ==> front(a + b).Bad?
      ensures front(a).Frame? ==> |front(a).rest| < |a| && front(a + b) == Frame(front(a).payload, front(a).rest + b)
    {
      FrontStays(a, b, isJson);
    }
  }

  lemma FrontStays(a: Bytes, b: Bytes, isJson: Bytes -> bool)
    ensures FrontOf(a, isJson).Bad? ==> FrontOf(a + b, isJson).Bad?
    ensures FrontOf(a, isJson).Frame? ==>
              FrontOf(a + b, isJson) == Frame(FrontOf(a, isJson).payload, FrontOf(a, isJson).rest + b)
  {
    var end := FindSeparator(a, 0);
    if end.Some? {
      SeparatorStays(a, b, 0);
      assert (a + b)[..end.value] == a[..end.value];
      assert (a + b)[end.value + 4..] == a[end.value + 4..] + b;
      var length := FindLength(a[..end.value], 0);
      if length.Some? {
        FrontAt(a, end.value, length.value, isJson);
        FrontAt(a + b, end.value, length.value, isJson);
        CutStays(a[end.value + 4..], b, length.value, isJson);
      }
    }
  }

  lemma FrontAt(s: Bytes, end: nat, length: nat, isJson: Bytes -> bool)
    requires FindSeparator(s, 0) == Some(end) && FindLength(s[..end], 0) == Some(length)
    ensures FrontOf(s, isJson) == Cut(s[end + 4..], length, isJson)
  {
  }

  lemma CutStays(body: Bytes, b: Bytes, length: nat, isJson: Bytes -> bool)
    ensures Cut(body, length, isJson).Bad? ==> Cut(body + b, length, isJson).Bad?
    ensures Cut(body, length, isJson).Frame? ==>
              Cut(body + b, length, isJson) == Frame(body[..length], body[length..] + b)
  {
    if length <= |body| {
      assert (body + b)[..length] == body[..length] && (body + b)[length..] == body[length..] + b;
    }
  }

  function After(messages: seq<Bytes>, later: Decoded): Decoded {
    Decoded(messages + later.messages, later.rest, later.bad)
  }

  lemma AfterAfter(a: seq<Bytes>, b: seq<Bytes>, later: Decoded)
    ensures After(a, After(b, later)) == After(a + b, later)
  {
    assert a + (b + later.messages) == (a + b) + later.messages;
  }

  lemma DecodeTaken(front: Bytes -> Front, s: Bytes)
    requires front(s).Frame? && |front(s).rest| < |s|
    ensures DecodeBy(front, s) == After([front(s).payload], DecodeBy(front, front(s).rest))
  {
  }

  lemma DecodeOfFront(s: Bytes, isJson: Bytes -> bool)
    requires FrontOf(s, isJson).Frame?
    ensures var f := FrontOf(s, isJson); Decode(s, isJson) == After([f.payload], Decode(f.rest, isJson))
  {
    DecodeTaken(FrontFor(isJson), s);
  }

  lemma StableAt(front: Bytes -> Front, a: Bytes, b: Bytes)
    requires IsStable(front)
    ensures front(a).Bad? ==> front(a + b).Bad?
    ensures front(a).Frame? ==> |front(a).rest| < |a| && front(a + b) == Frame(front(a).payload, front(a).rest + b)
  {
    assert front(a + b) == front(a + b);
  }

  lemma {:induction false} DecodeByConcat(front: Bytes -> Front, a: Bytes, b: Bytes)
    requires IsStable(front)
    ensures var first := DecodeBy(front, a);
            var later := DecodeBy(front, first.rest + b);
            && DecodeBy(front, a + b) == Decoded(first.messages + later.messages, later.rest, later.bad)
            && (first.bad ==> later == Decoded([], first.rest + b, true))
    decreases |a|
  {
    var f := front(a);
    StableAt(front, a, b);
    if f.Frame? {
      DecodeByConcat(front, f.rest, b);
      DecodeTaken(front, a);
      DecodeTaken(front, a + b);
      var rest := DecodeBy(front, f.rest);
      AfterAfter([f.payload], rest.messages, DecodeBy(front, rest.rest + b));
    }
  }

  /** Decoding in two steps: what is left of the first part is decoded with the second part. */
  lemma DecodeConcat(a: Bytes, b: Bytes, isJson: Bytes -> bool)
    ensures var first := Decode(a, isJson);
            var later := Decode(first.rest + b, isJson);
            && Decode(a + b, isJson) == Decoded(first.messages + later.messages, later.rest, later.bad)
            && (first.bad ==> later == Decoded([], first.rest + b, true))
  {
    FrontIsStable(isJson);
    DecodeByConcat(FrontFor(isJson), a, b);
  }

  /** One turn of the decoding loop: looks for the header, its length and the whole payload. */
  method TakeFront(buffer: Bytes, isJson: Bytes -> bool) returns (front: Front)
    ensures front == FrontOf(buffer, isJson)
  {
    var headerEnd := FindSeparator(buffer, 0);
    if headerEnd.None? {
      return Incomplete;
    }
    var length := FindLength(buffer[..headerEnd.value], 0);
    if length.None? {
      return Bad;
    }
    ghost var body := buffer[headerEnd.value + 4..];
    var payloadStart := headerEnd.value + 4;
    var payloadEnd := payloadStart + length.value;
    if |buffer| < payloadEnd {
      return Incomplete;
    }
    var payload := buffer[payloadStart..payloadEnd];
    assert payload == body[..length.value] && buffer[payloadEnd..] == body[length.value..];
    front := if isJson(payload) then Frame(payload, buffer[payloadEnd..]) else Bad;
  }

  /** The decoder of the client. */
  class FrameDecoder {
    var buffer: Bytes
    const isJson: Bytes -> bool

    constructor (isJson: Bytes -> bool)
      ensures buffer == [] && this.isJson == isJson
    {
      buffer := [];
      this.isJson := isJson;
    }

    /** Adds a chunk and takes the complete messages. When it throws, the messages of this call
        are lost and the buffer starts with what could not be decoded. */
    method Push(chunk: Bytes) returns (messages: seq<Bytes>, threw: bool)
      modifies this`buffer
      ensures buffer == Decode(old(buffer) + chunk, isJson).rest
      ensures threw == Decode(old(buffer) + chunk, isJson).bad
      ensures !threw ==> messages == Decode(old(buffer) + chunk, isJson).messages
    {
      buffer := buffer + chunk;
      messages := [];
      while true
        invariant Decode(old(buffer) + chunk, isJson) == After(messages, Decode(buffer, isJson))
        decreases |buffer|
      {
        var front := TakeFront(buffer, isJson);
        if front.Incomplete? {
          return messages, false;
        }
        if front.Bad? {
          return [], true;
        }
        DecodeOfFront(buffer, isJson);
        AfterAfter(messages, [front.payload], Decode(front.rest, isJson));
        messages := messages + [front.payload];
        buffer := front.rest;
      }
    }

    /** Pushes chunk after chunk, until one throws. */
    method PushAll(chunks: seq<Bytes>) returns (messages: seq<Bytes>, threw: bool)
      requires buffer == []
      modifies this`buffer
      ensures threw == Decode(Concat(chunks), isJson).bad
      ensures !threw ==>
                messages == Decode(Concat(chunks), isJson).messages && buffer == Decode(Concat(chunks), isJson).rest
    {
      messages, threw := [], false;
      for i := 0 to |chunks|
        invariant Decode(Concat(chunks[..i]), isJson) == Decoded(messages, buffer, false)
      {
        assert chunks[..i + 1][..i] == chunks[..i];
        DecodeConcat(Concat(chunks[..i]), chunks[i], isJson);
        var more;
        more, threw := Push(chunks[i]);
        if threw {
          BadStays(chunks, i + 1, isJson);
          return;
        }
        messages := messages + more;
      }
      assert chunks[..|chunks|] == chunks;
    }
  }

  lemma {:induction false} BadStays(chunks: seq<Bytes>, i: nat, isJson: Bytes -> bool)
    requires i <= |chunks| && Decode(Concat(chunks[..i]), isJson).bad
    ensures Decode(Concat(chunks), isJson).bad
    decreases |chunks| - i
  {
    if i == |chunks| {
      assert chunks[..i] == chunks;
    } else {
      assert chunks[..i + 1][..i] == chunks[..i];
      DecodeConcat(Concat(chunks[..i]), chunks[i], isJson);
      BadStays(chunks, i + 1, isJson);
    }
  }

  // -------------------------------------------------------------------------- round trip

  lemma {:induction false} SeparatorAfter(s: Bytes, from: nat, k: nat)
    requires from <= k <= |s| - 4 && s[k..k + 4] == SEPARATOR
    requires forall j | from <= j < k :: s[j] != '\r'
    ensures FindSeparator(s, from) == Some(k)
    decreases k - from
  {
    if from < k {
      assert s[from..from + 4][0] != SEPARATOR[0];
      SeparatorAfter(s, from + 1, k);
    }
  }

  lemma {:induction false} RunThrough(s: Bytes, from: nat, k: nat, inRun: char -> bool)
    requires from <= k <= |s| && (k == |s| || !inRun(s[k]))
    requires forall j | from <= j < k :: inRun(s[j])
    ensures RunEnd(s, from, inRun) == k
    decreases k - from
  {
    if from < k {
      RunThrough(s, from + 1, k, inRun);
    }
  }

  lemma FieldInLowerCase()
    ensures LowerAll("Content-Length") == FIELD
  {
  }

  lemma HeaderShape(n: nat)
    ensures var h := Header(n);
            && |h| > 16 && h[0..14] == "Content-Length" && h[14] == ':' && h[15] == ' ' && h[16..] == Decimal(n)
            && forall j | 16 <= j < |h| :: IsDigit(h[j])
  {
    var h, digits := Header(n), Decimal(n);
    DecimalRoundTrip(n);
    forall j | 16 <= j < |h| ensures h[j] == digits[j - 16] && digits[j - 16] in digits {}
  }

  lemma LineAt(header: Bytes, p: nat, n: nat)
    requires p + 16 <= |header| && header[p..p + 14] == "Content-Length" && header[p + 14] == ':'
    requires header[p + 15] == ' ' && header[p + 16..] == Decimal(n)
    ensures LengthAt(header, p) == Some(n)
  {
    DecimalRoundTrip(n);
    FieldInLowerCase();
    forall j | p + 16 <= j < |header| ensures IsDigit(header[j]) {
      assert header[j] == Decimal(n)[j - p - 16] && header[j] in Decimal(n);
    }
    assert |Decimal(n)| > 0 && header[p + 16] == Decimal(n)[0];
    RunThrough(header, p + 15, p + 16, SPACE);
    RunThrough(header, p + 16, |header|, DIGIT);
    assert header[p + 16..|header|] == header[p + 16..];
  }

  lemma HeaderLength(n: nat)
    ensures FindLength(Header(n), 0) == Some(n)
    ensures forall j | 0 <= j < |Header(n)| :: Header(n)[j] != '\r'
  {
    HeaderShape(n);
    LineAt(Header(n), 0, n);
    assert "Content-Length"[..14] == "Content-Length";
    forall j | 0 <= j < 14 ensures Header(n)[j] != '\r' {
      assert Header(n)[j] == "Content-Length"[j];
    }
  }

  lemma EncodedParts(header: Bytes, payload: Bytes, rest: Bytes)
    requires forall j | 0 <= j < |header| :: header[j] != '\r'
    ensures var s := header + SEPARATOR + payload + rest;
            FindSeparator(s, 0) == Some(|header|) && s[..|header|] == header && s[|header| + 4..] == payload + rest
  {
    var s := header + SEPARATOR + payload + rest;
    assert s[|header|..|header| + 4] == SEPARATOR;
    assert forall j | 0 <= j < |header| :: s[j] == header[j];
    SeparatorAfter(s, 0, |header|);
  }

  lemma CutWhole(payload: Bytes, rest: Bytes, isJson: Bytes -> bool)
    requires isJson(payload)
    ensures Cut(payload + rest, |payload|, isJson) == Frame(payload, rest)
  {
    assert (payload + rest)[..|payload|] == payload && (payload + rest)[|payload|..] == rest;
  }

  /** A stream that starts with an encoded message yields it and leaves the rest. */
  lemma FrontOfEncoded(payload: Bytes, rest: Bytes, isJson: Bytes -> bool)
    requires isJson(payload)
    ensures FrontOf(EncodeFrame(payload) + rest, isJson) == Frame(payload, rest)
  {
    var h := Header(|payload|);
    HeaderLength(|payload|);
    EncodedParts(h, payload, rest);
    FrontAt(EncodeFrame(payload) + rest, |h|, |payload|, isJson);
    CutWhole(payload, rest, isJson);
  }

  function EncodeAll(messages: seq<Bytes>): Bytes {
    if messages == [] then [] else EncodeFrame(messages[0]) + EncodeAll(messages[1..])
  }

  /** The tail of a stream: nothing, or the start of an encoded message. */
  ghost predicate IsUnfinished(tail: Bytes, isJson: Bytes -> bool) {
    exists payload :: isJson(payload) && tail < EncodeFrame(payload)
  }

  lemma UnfinishedWaits(tail: Bytes, isJson: Bytes -> bool)
    requires IsUnfinished(tail, isJson)
    ensures FrontOf(tail, isJson) == Incomplete
  {
    var payload :| isJson(payload) && tail < EncodeFrame(payload);
    var missing := EncodeFrame(payload)[|tail|..];
    assert tail + missing == EncodeFrame(payload) == EncodeFrame(payload) + [];
    FrontOfEncoded(payload, [], isJson);
    FrontStays(tail, missing, isJson);
  }

  /** Decoding undoes encoding: the messages come back in order, and the unfinished tail waits. */
  lemma {:induction false} DecodeOfEncoded(messages: seq<Bytes>, tail: Bytes, isJson: Bytes -> bool)
    requires forall m <- messages :: isJson(m)
    requires IsUnfinished(tail, isJson)
    ensures Decode(EncodeAll(messages) + tail, isJson) == Decoded(messages, tail, false)
  {
    if messages == [] {
      UnfinishedWaits(tail, isJson);
      assert EncodeAll(messages) + tail == tail;
    } else {
      var rest := EncodeAll(messages[1..]) + tail;
      assert EncodeAll(messages) + tail == EncodeFrame(messages[0]) + rest;
      FrontOfEncoded(messages[0], rest, isJson);
      DecodeOfEncoded(messages[1..], tail, isJson);
    }
  }

  // ------------------------------------------------------- two processes on one buffer

  function Flat(parts: seq<seq<Bytes>>): seq<Bytes> {
    if parts == [] then [] else parts[0] + Flat(parts[1..])
  }

  function StreamOf(parts: seq<seq<Bytes>>): Bytes {
    if parts == [] then [] else EncodeAll(parts[0]) + StreamOf(parts[1..])
  }

  lemma JoinAfter(a: Bytes, b: Bytes, c: Bytes)
    ensures a + (b + c) == (a + b) + c
  {
  }

  lemma {:induction false} EncodeAllConcat(a: seq<Bytes>, b: seq<Bytes>)
    ensures EncodeAll(a + b) == EncodeAll(a) + EncodeAll(b)
  {
    if a == [] {
      assert a + b == b;
    } else {
      EncodeAllConcat(a[1..], b);
      assert (a + b)[1..] == a[1..] + b;
      JoinAfter(EncodeFrame(a[0]), EncodeAll(a[1..]), EncodeAll(b));
    }
  }

  lemma {:induction false} StreamOfFlat(parts: seq<seq<Bytes>>)
    ensures StreamOf(parts) == EncodeAll(Flat(parts))
  {
    if parts != [] {
      StreamOfFlat(parts[1..]);
      EncodeAllConcat(parts[0], Flat(parts[1..]));
    }
  }

  /** Output of several processes on one buffer is framed right when each part is whole frames: all messages come, in
      the order of the parts. */
  lemma WholeFramesInterleave(parts: seq<seq<Bytes>>, tail: Bytes, isJson: Bytes -> bool)
    requires forall m <- Flat(parts) :: isJson(m)
    requires IsUnfinished(tail, isJson)
    ensures Decode(StreamOf(parts) + tail, isJson) == Decoded(Flat(parts), tail, false)
  {
    StreamOfFlat(parts);
    DecodeOfEncoded(Flat(parts), tail, isJson);
  }

  lemma {:induction false} NoLaterLine(header: Bytes, p: nat)
    requires 0 < p <= |header| && forall c <- header :: !IsLineEnd(c)
    ensures FindLength(header, p).None?
    decreases |header| - p
  {
    assert header[p - 1] in header;
    if p < |header| {
      NoLaterLine(header, p + 1);
    }
  }

  /** The line after a line end says the length. */
  lemma LaterLine(c: char, n: nat)
    ensures LengthAt([c] + Header(n), 1) == Some(n)
  {
    var header := [c] + Header(n);
    HeaderShape(n);
    assert header[1..15] == Header(n)[0..14] && header[17..] == Header(n)[16..];
    LineAt(header, 1, n);
  }

  lemma NoLineEndIn(c: char, n: nat)
    requires !IsLineEnd(c)
    ensures forall b <- [c] + Header(n) :: !IsLineEnd(b)
  {
    var header, name := [c] + Header(n), "Content-Length: ";
    HeaderShape(n);
    assert header == [c] + name + Decimal(n);
    assert forall b <- name :: !IsLineEnd(b);
    DecimalRoundTrip(n);
  }

  /** A byte before the header hides it unless it ends a line. */
  lemma LaterHeader(c: char, n: nat)
    ensures FindLength([c] + Header(n), 0) == if IsLineEnd(c) then Some(n) else None
  {
    var header := [c] + Header(n);
    HeaderShape(n);
    assert header[0..14][1] == 'C' && LowerAll(header[0..14])[1] == 'c' != FIELD[1];
    assert LengthAt(header, 0).None?;
    if IsLineEnd(c) {
      LaterLine(c, n);
    } else {
      NoLineEndIn(c, n);
      NoLaterLine(header, 1);
    }
  }

  /**
   * A restart empties the buffer, but the replaced process may still write. When it is cut off inside a frame, the rest
   * of that frame comes first: one byte of it makes an answer of the new process a failure unless it ends a line.
   */
  lemma LateByteFails(c: char, payload: Bytes, rest: Bytes, isJson: Bytes -> bool)
    requires isJson(payload)
    ensures FrontOf([c] + EncodeFrame(payload) + rest, isJson) == if IsLineEnd(c) then Frame(payload, rest) else Bad
  {
    var header := [c] + Header(|payload|);
    HeaderLength(|payload|);
    LaterParts(c, Header(|payload|), payload, rest);
    LaterStream(c, Header(|payload|), payload, rest);
    LaterHeader(c, |payload|);
    FrontOfParts(header + SEPARATOR + payload + rest, header, payload, rest, isJson);
  }

  lemma FrontOfParts(s: Bytes, header: Bytes, payload: Bytes, rest: Bytes, isJson: Bytes -> bool)
    requires FindSeparator(s, 0) == Some(|header|) && s[..|header|] == header && s[|header| + 4..] == payload + rest
    requires isJson(payload)
    ensures FindLength(header, 0).None? ==> FrontOf(s, isJson) == Bad
    ensures FindLength(header, 0) == Some(|payload|) ==> FrontOf(s, isJson) == Frame(payload, rest)
  {
    if FindLength(header, 0) == Some(|payload|) {
      FrontAt(s, |header|, |payload|, isJson);
      CutWhole(payload, rest, isJson);
    }
  }

  lemma LaterStream(c: char, header: Bytes, payload: Bytes, rest: Bytes)
    ensures [c] + (header + SEPARATOR + payload) + rest == ([c] + header) + SEPARATOR + payload + rest
  {
  }

  lemma LaterParts(c: char, header: Bytes, payload: Bytes, rest: Bytes)
    requires |header| > 1 && forall j | 0 <= j < |header| :: header[j] != '\r'
    ensures var later := [c] + header;
            var s := later + SEPARATOR + payload + rest;
            FindSeparator(s, 0) == Some(|later|) && s[..|later|] == later && s[|later| + 4..] == payload + rest
  {
    var later := [c] + header;
    var s := later + SEPARATOR + payload + rest;
    assert s[|later|..|later| + 4] == SEPARATOR;
    assert forall j | 1 <= j < |later| :: s[j] == header[j - 1];
    assert s[0..4][2] == header[1] != SEPARATOR[2];
    SeparatorAfter(s, 1, |later|);
  }

  // -------------------------------------------------------------------- the client's reader

  /** What is handled and what is still to be decoded make up all messages. */
  ghost predicate Remains(messages: seq<Bytes>, all: Decoded, handled: seq<Bytes>, later: Decoded) {
    messages == handled + later.messages && all.rest == later.rest && all.bad == later.bad
  }

  lemma TakenRemains(front: Bytes -> Front, messages: seq<Bytes>, all: Decoded, handled: seq<Bytes>, s: Bytes)
    requires front(s).Frame? && |front(s).rest| < |s| && Remains(messages, all, handled, DecodeBy(front, s))
    ensures Remains(messages, all, handled + [front(s).payload], DecodeBy(front, front(s).rest))
  {
  }

  /** `front` is the front of a buffer; the trigger keeps its definition out of the proofs that
      only need its value. */
  ghost predicate IsFront(front: Bytes -> Front, isJson: Bytes -> bool) {
    forall s {:trigger FrontOf(s, isJson)} :: front(s) == FrontOf(s, isJson)
  }

  method TakeNamedFront(buffer: Bytes, isJson: Bytes -> bool, ghost front: Bytes -> Front) returns (f: Front)
    requires IsFront(front, isJson)
    ensures f == front(buffer) && (f.Frame? ==> |f.rest| < |buffer|)
  {
    f := TakeFront(buffer, isJson);
  }

  lemma {:induction false} NamedFrontDecodes(front: Bytes -> Front, isJson: Bytes -> bool, s: Bytes)
    requires IsFront(front, isJson)
    ensures DecodeBy(front, s) == Decode(s, isJson)
    decreases |s|
  {
    assert front(s) == FrontOf(s, isJson);
    if front(s).Frame? {
      NamedFrontDecodes(front, isJson, front(s).rest);
    }
  }

  /** The standard output of the serve process, as the client reads it. A wrong header or payload
      is a serve failure, which empties the buffer. */
  class StdoutReader {
    var stdoutBuffer: Bytes
    var handled: seq<Bytes>
    var failed: bool
    const isJson: Bytes -> bool

    constructor (isJson: Bytes -> bool)
      ensures stdoutBuffer == [] && handled == [] && !failed && this.isJson == isJson
    {
      stdoutBuffer, handled, failed := [], [], false;
      this.isJson := isJson;
    }

    /** Handles the complete frames of the buffer and the chunk. Unlike the decoder, it keeps the
        messages before a bad one. */
    method HandleStdout(chunk: Bytes)
      requires !failed
      modifies this`stdoutBuffer, this`handled, this`failed
      ensures var all := Decode(old(stdoutBuffer) + chunk, isJson);
              && handled == old(handled) + all.messages
              && failed == all.bad
              && stdoutBuffer == if all.bad then [] else all.rest
    {
      stdoutBuffer := stdoutBuffer + chunk;
      ghost var front: Bytes -> Front :| IsFront(front, isJson) by { assert IsFront(FrontFor(isJson), isJson); }
      NamedFrontDecodes(front, isJson, stdoutBuffer);
      HandleFronts(front);
    }

    method HandleFronts(ghost front: Bytes -> Front)
      requires !failed && IsFront(front, isJson)
      modifies this`stdoutBuffer, this`handled, this`failed
      ensures var all := DecodeBy(front, old(stdoutBuffer));
              && handled == old(handled) + all.messages
              && failed == all.bad
              && stdoutBuffer == if all.bad then [] else all.rest
    {
      ghost var all, before := DecodeBy(front, stdoutBuffer), handled;
      while true
        invariant !failed && Remains(before + all.messages, all, handled, DecodeBy(front, stdoutBuffer))
        decreases |stdoutBuffer|
      {
        var f := TakeNamedFront(stdoutBuffer, isJson, front);
        if f.Incomplete? {
          return;
        }
        if f.Bad? {
          stdoutBuffer, failed := [], true;
          return;
        }
        TakenRemains(front, before + all.messages, all, handled, stdoutBuffer);
        stdoutBuffer, handled := f.rest, handled + [f.payload];
      }
    }
  }
}
