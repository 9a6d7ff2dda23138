/**
 * What the front of a buffer means, said by its bytes: the first separator, the first Content-Length line before it,
 * and that many bytes after it (packages/client/src/frames.ts, FrameDecoder.push).
 */
module FrameSyntax {
  import opened Basics
  import opened Frames

  predicate IsSeparatorAt(s: Bytes, end: nat) {
    end + |SEPARATOR| <= |s| && s[end..end + |SEPARATOR|] == SEPARATOR
  }

  /** The header ends at the first separator. */
  ghost predicate EndsHeader(s: Bytes, end: nat) {
    IsSeparatorAt(s, end) && forall j: nat :: j < end ==> !IsSeparatorAt(s, j)
  }

  predicate AreDigits(s: Bytes) {
    forall c <- s :: IsDigit(c)
  }

  predicate AreSpaces(s: Bytes) {
    forall c <- s :: IsSpace(c)
  }

  predicate StartsLine(header: Bytes, p: nat) {
    p == 0 || (p <= |header| && IsLineEnd(header[p - 1]))
  }

  /** A line of a header at p that is the field name in any case, a colon, white space and then the digits from..end. */
  predicate IsLengthLine(header: Bytes, p: nat, from: nat, end: nat) {
    && p + |FIELD| < from < end <= |header| && StartsLine(header, p)
    && LowerAll(header[p..p + |FIELD|]) == FIELD && header[p + |FIELD|] == ':'
    && AreSpaces(header[p + |FIELD| + 1..from]) && AreDigits(header[from..end])
    && (end == |header| || IsLineEnd(header[end]))
  }

  /** No length line starts at from or after it, and before end. */
  ghost predicate NoLengthLine(header: Bytes, from: nat, end: nat) {
    forall p: nat, f: nat, e: nat :: from <= p < end ==> !IsLengthLine(header, p, f, e)
  }

  /** The first length line of a header has these digits. */
  ghost predicate Announces(header: Bytes, from: nat, end: nat) {
    exists p: nat :: IsLengthLine(header, p, from, end) && NoLengthLine(header, 0, p)
  }

  ghost predicate IsFrontBody(header: Bytes, body: Bytes, isJson: Bytes -> bool, front: Front) {
    && ((forall from: nat, end: nat :: !Announces(header, from, end)) ==> front == Bad)
    && forall from: nat, end: nat :: Announces(header, from, end) ==>
         front == Cut(body, ParseDecimal(header[from..end]), isJson)
  }

  /** What a buffer starts with, said without a search. */
  ghost predicate StartsWith(s: Bytes, isJson: Bytes -> bool, front: Front) {
    && ((forall end: nat :: !EndsHeader(s, end)) ==> front == Incomplete)
    && forall end: nat :: EndsHeader(s, end) ==> IsFrontBody(s[..end], s[end + |SEPARATOR|..], isJson, front)
  }

  lemma {:induction false} FirstSeparator(s: Bytes, from: nat)
    ensures var r := FindSeparator(s, from);
            if r.None? then forall j: nat :: from <= j ==> !IsSeparatorAt(s, j)
            else IsSeparatorAt(s, r.value) && forall j: nat :: from <= j < r.value ==> !IsSeparatorAt(s, j)
    decreases |s| - from
  {
    if from + 4 <= |s| && s[from..from + 4] != SEPARATOR {
      FirstSeparator(s, from + 1);
    }
  }

  lemma {:induction false} RunStops(s: Bytes, from: nat, inRun: char -> bool)
    requires from <= |s|
    ensures var end := RunEnd(s, from, inRun); end == |s| || !inRun(s[end])
    decreases |s| - from
  {
    if from < |s| && inRun(s[from]) {
      RunStops(s, from + 1, inRun);
    }
  }

  /** A run of one kind of bytes that is followed by another byte. */
  lemma RunOf(s: Bytes, from: nat, end: nat, inRun: char -> bool)
    requires from <= end <= |s| && (forall c <- s[from..end] :: inRun(c)) && (end == |s| || !inRun(s[end]))
    ensures RunEnd(s, from, inRun) == end
  {
    forall j | from <= j < end ensures inRun(s[j]) {
      assert s[j] == s[from..end][j - from];
    }
    RunThrough(s, from, end, inRun);
  }

  /** LengthAt reads a length line. */
  lemma LengthAtLine(header: Bytes, p: nat, from: nat, end: nat)
    requires IsLengthLine(header, p, from, end)
    ensures LengthAt(header, p) == Some(ParseDecimal(header[from..end]))
  {
    assert header[from] in header[from..end];
    RunOf(header, p + |FIELD| + 1, from, SPACE);
    RunOf(header, from, end, DIGIT);
  }

  lemma LineOfLengthAt(header: Bytes, p: nat) returns (from: nat, end: nat)
    requires p <= |header| && StartsLine(header, p) && LengthAt(header, p).Some?
    ensures IsLengthLine(header, p, from, end) && LengthAt(header, p) == Some(ParseDecimal(header[from..end]))
  {
    from := RunEnd(header, p + |FIELD| + 1, SPACE);
    end := RunEnd(header, from, DIGIT);
    RunIsUniform(header, p + |FIELD| + 1, SPACE);
    RunIsUniform(header, from, DIGIT);
  }

  /** The length at p when a line starts there. */
  function LineLength(header: Bytes, p: nat): Option<nat>
    requires p <= |header|
  {
    if StartsLine(header, p) then LengthAt(header, p) else None
  }

  lemma NoLineHere(header: Bytes, p: nat)
    requires p <= |header| && LineLength(header, p).None?
    ensures NoLengthLine(header, p, p + 1)
  {
    forall f: nat, e: nat ensures !IsLengthLine(header, p, f, e) {
      if IsLengthLine(header, p, f, e) {
        LengthAtLine(header, p, f, e);
        assert false;
      }
    }
  }

  lemma LineHere(header: Bytes, p: nat, end: nat)
    requires p < end && p <= |header| && NoLengthLine(header, p, end)
    ensures LineLength(header, p).None?
  {
    if LineLength(header, p).Some? {
      var f, e := LineOfLengthAt(header, p);
      assert false;
    }
  }

  /** FindLength reads the first length line. */
  lemma {:induction false} FindLengthOfLine(header: Bytes, p: nat, q: nat, from: nat, end: nat)
    requires p <= q && IsLengthLine(header, q, from, end) && NoLengthLine(header, p, q)
    ensures FindLength(header, p) == Some(ParseDecimal(header[from..end]))
    decreases q - p
  {
    if p == q {
      LengthAtLine(header, p, from, end);
    } else {
      LineHere(header, p, q);
      FindLengthOfLine(header, p + 1, q, from, end);
    }
  }

  /** What FindLength finds is the first length line. */
  lemma {:induction false} LineOfFindLength(header: Bytes, p: nat) returns (q: nat, from: nat, end: nat)
    requires p <= |header| && FindLength(header, p).Some?
    ensures IsLengthLine(header, q, from, end) && NoLengthLine(header, p, q)
    decreases |header| - p
  {
    if LineLength(header, p).Some? {
      q := p;
      from, end := LineOfLengthAt(header, p);
    } else {
      NoLineHere(header, p);
      q, from, end := LineOfFindLength(header, p + 1);
    }
  }

  lemma HeaderEnds(s: Bytes, end: nat)
    ensures EndsHeader(s, end) <==> FindSeparator(s, 0) == Some(end)
  {
    FirstSeparator(s, 0);
  }

  lemma BodyIsByBytes(header: Bytes, body: Bytes, isJson: Bytes -> bool, front: Front)
    requires front == match FindLength(header, 0) case None => Bad case Some(length) => Cut(body, length, isJson)
    ensures IsFrontBody(header, body, isJson, front)
  {
    forall from: nat, end: nat | Announces(header, from, end)
      ensures FindLength(header, 0) == Some(ParseDecimal(header[from..end]))
    {
      var p: nat :| IsLengthLine(header, p, from, end) && NoLengthLine(header, 0, p);
      FindLengthOfLine(header, 0, p, from, end);
    }
    if FindLength(header, 0).Some? {
      var q, from, end := LineOfFindLength(header, 0);
      assert Announces(header, from, end);
    }
  }

  lemma StartsWithFound(s: Bytes, found: Option<nat>, isJson: Bytes -> bool, front: Front)
    requires forall end: nat :: EndsHeader(s, end) <==> found == Some(end)
    requires found.None? ==> front == Incomplete
    requires found.Some? ==> found.value + |SEPARATOR| <= |s|
    requires found.Some? ==> IsFrontBody(s[..found.value], s[found.value + |SEPARATOR|..], isJson, front)
    ensures StartsWith(s, isJson, front)
  {
    if found.Some? {
      assert EndsHeader(s, found.value);
    }
  }

  /** The search of the decoder finds what a buffer starts with. */
  lemma FrontIsByBytes(s: Bytes, isJson: Bytes -> bool)
    ensures StartsWith(s, isJson, FrontOf(s, isJson))
  {
    forall end: nat ensures EndsHeader(s, end) <==> FindSeparator(s, 0) == Some(end) {
      HeaderEnds(s, end);
    }
    var found := FindSeparator(s, 0);
    if found.Some? {
      BodyIsByBytes(s[..found.value], s[found.value + |SEPARATOR|..], isJson, FrontOf(s, isJson));
    }
    StartsWithFound(s, found, isJson, FrontOf(s, isJson));
  }

  /** There is one such front, so what the decoder takes is determined by the bytes alone. */
  lemma FrontIsUnique(s: Bytes, isJson: Bytes -> bool, a: Front, b: Front)
    requires StartsWith(s, isJson, a) && StartsWith(s, isJson, b)
    ensures a == b
  {
    if end: nat :| EndsHeader(s, end) {
      var header := s[..end];
      if from: nat, to: nat :| Announces(header, from, to) {
        assert header[from..to] == header[from..to];
      }
    }
  }
}
