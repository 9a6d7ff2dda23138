/** The index between byte offsets of a UTF-8 text and its UTF-16 code unit offsets
    (internal/tsgo/internal/ast/positionmap.go). It has one entry for each character outside ASCII,
    with the difference of the two counts after it, so a binary search finds the difference at any
    offset. A lone surrogate is written with three bytes, and a byte that starts no character counts
    as one unit. */
module PositionMaps {

  newtype byte = x: int | 0 <= x < 256

  /** One decoded character: its rune and its number of bytes. */
  datatype Decoded = Decoded(rune: int, size: nat)

  predicate IsCont(b: byte) {
    0x80 <= b <= 0xBF
  }

  function Tail(b: byte): int {
    b as int - 0x80
  }

  /** The second bytes that UTF-8 allows after a first byte of a longer character. */
  predicate IsSecond(first: byte, second: byte) {
    if first == 0xE0 then 0xA0 <= second <= 0xBF
    else if first == 0xED then 0x80 <= second <= 0x9F
    else if first == 0xF0 then 0x90 <= second <= 0xBF
    else if first == 0xF4 then 0x80 <= second <= 0x8F
    else IsCont(second)
  }

  /** utf8.DecodeRuneInString: a byte that starts no character is U+FFFD of one byte. */
  function DecodeRune(s: seq<byte>): Decoded
    requires s != []
  {
    if s[0] < 0x80 then Decoded(s[0] as int, 1)
    else if 0xC2 <= s[0] <= 0xDF && 2 <= |s| && IsCont(s[1]) then
      Decoded((s[0] as int - 0xC0) * 0x40 + Tail(s[1]), 2)
    else if 0xE0 <= s[0] <= 0xEF && 3 <= |s| && IsSecond(s[0], s[1]) && IsCont(s[2]) then
      Decoded((s[0] as int - 0xE0) * 0x1000 + Tail(s[1]) * 0x40 + Tail(s[2]), 3)
    else if 0xF0 <= s[0] <= 0xF4 && 4 <= |s| && IsSecond(s[0], s[1]) && IsCont(s[2]) && IsCont(s[3]) then
      Decoded((s[0] as int - 0xF0) * 0x40000 + Tail(s[1]) * 0x1000 + Tail(s[2]) * 0x40 + Tail(s[3]), 4)
    else Decoded(0xFFFD, 1)
  }

  /** DecodeJSStringRune: also a lone surrogate, which is written with three bytes. */
  function DecodeJSStringRune(s: seq<byte>): (d: Decoded)
    requires s != []
    ensures 1 <= d.size <= 4 && d.size <= |s|
    ensures d.rune >= 0x10000 <==> d.size == 4
    ensures s[0] < 0x80 ==> d.size == 1
  {
    if 3 <= |s| && s[0] == 0xED && 0xA0 <= s[1] <= 0xBF && IsCont(s[2]) then
      Decoded(0xD000 + Tail(s[1]) * 0x40 + Tail(s[2]), 3)
    else DecodeRune(s)
  }

  /** What matters of a character here. */
  datatype Char = Char(ascii: bool, size: nat, units: nat) {
    predicate Valid() {
      1 <= units <= size <= 4 && (ascii ==> size == 1)
    }
  }

  function FirstChar(text: seq<byte>): (c: Char)
    requires text != []
    ensures c.Valid() && c.size <= |text|
  {
    var d := DecodeJSStringRune(text);
    Char(text[0] < 0x80, d.size, if d.rune >= 0x10000 then 2 else 1)
  }

  /** The characters of a text. */
  function Chars(text: seq<byte>): (chars: seq<Char>)
    ensures forall k :: 0 <= k < |chars| ==> chars[k].Valid()
  {
    if text == [] then []
    else
      var c := FirstChar(text);
      [c] + Chars(text[c.size..])
  }

  /** The bytes of the first n characters, counted one by one. */
  function Bytes(chars: seq<Char>, n: nat): nat
    requires n <= |chars|
  {
    if n == 0 then 0 else Bytes(chars, n - 1) + chars[n - 1].size
  }

  /** The UTF-16 code units of the first n characters, counted one by one. */
  function Units(chars: seq<Char>, n: nat): nat
    requires n <= |chars|
  {
    if n == 0 then 0 else Units(chars, n - 1) + chars[n - 1].units
  }

  ghost predicate AllValid(chars: seq<Char>) {
    forall k :: 0 <= k < |chars| ==> chars[k].Valid()
  }

  lemma {:induction false} CountsGrow(chars: seq<Char>, m: nat, n: nat)
    requires AllValid(chars) && m <= n <= |chars|
    ensures Bytes(chars, n) - Bytes(chars, m) >= Units(chars, n) - Units(chars, m) >= n - m
    decreases n
  {
    if m < n {
      CountsGrow(chars, m, n - 1);
    }
  }

  /** pos: the byte offset after a character that is not ASCII; delta: bytes minus code units up to there. */
  datatype Entry = Entry(pos: nat, delta: int)

  function Delta(chars: seq<Char>, n: nat): int
    requires n <= |chars|
  {
    Bytes(chars, n) - Units(chars, n)
  }

  /** The entries of the first n characters. */
  function Entries(chars: seq<Char>, n: nat): seq<Entry>
    requires n <= |chars|
  {
    if n == 0 then []
    else if chars[n - 1].ascii then Entries(chars, n - 1)
    else Entries(chars, n - 1) + [Entry(Bytes(chars, n), Delta(chars, n))]
  }

  lemma {:induction false} EntriesBehind(chars: seq<Char>, n: nat)
    requires AllValid(chars) && n <= |chars|
    ensures forall k :: 0 <= k < |Entries(chars, n)| ==>
              var e := Entries(chars, n)[k];
              e.pos <= Bytes(chars, n) && e.pos - e.delta <= Units(chars, n)
    decreases n
  {
    if n > 0 {
      EntriesBehind(chars, n - 1);
    }
  }

  function LastDelta(entries: seq<Entry>): int {
    if entries == [] then 0 else entries[|entries| - 1].delta
  }

  /** Between entries the difference stays: ASCII characters add nothing to it. */
  lemma {:induction false} LastDeltaIsDelta(chars: seq<Char>, n: nat)
    requires AllValid(chars) && n <= |chars|
    ensures LastDelta(Entries(chars, n)) == Delta(chars, n)
    decreases n
  {
    if n > 0 {
      LastDeltaIsDelta(chars, n - 1);
    }
  }

  /** Both orders are strict, so a binary search is on sorted entries. */
  lemma {:induction false} EntriesAscend(chars: seq<Char>, n: nat)
    requires AllValid(chars) && n <= |chars|
    ensures IsAscending(Entries(chars, n))
    decreases n
  {
    if n > 0 {
      EntriesAscend(chars, n - 1);
      EntriesBehind(chars, n - 1);
      CountsGrow(chars, n - 1, n);
    }
  }

  predicate IsAscending(entries: seq<Entry>) {
    forall i, j :: 0 <= i < j < |entries| ==>
      entries[i].pos < entries[j].pos && entries[i].pos - entries[i].delta < entries[j].pos - entries[j].delta
  }

  /** The delta of the last entry up to a byte offset. */
  function DeltaUpTo(entries: seq<Entry>, offset: nat): int {
    if entries == [] then 0
    else
      var last := entries[|entries| - 1];
      if last.pos <= offset then last.delta else DeltaUpTo(entries[..|entries| - 1], offset)
  }

  /** The delta of the last entry up to a code unit offset. */
  function UnitDeltaUpTo(entries: seq<Entry>, offset: nat): int {
    if entries == [] then 0
    else
      var last := entries[|entries| - 1];
      if last.pos - last.delta <= offset then last.delta else UnitDeltaUpTo(entries[..|entries| - 1], offset)
  }

  /** What a binary search finds is what a scan from the end finds. */
  lemma {:induction false} SearchFindsDelta(entries: seq<Entry>, offset: nat, place: nat)
    requires place <= |entries|
    requires forall k :: 0 <= k < place ==> entries[k].pos <= offset
    requires forall k :: place <= k < |entries| ==> entries[k].pos > offset
    ensures DeltaUpTo(entries, offset) == LastDelta(entries[..place])
  {
    if place < |entries| {
      SearchFindsDelta(entries[..|entries| - 1], offset, place);
      assert entries[..|entries| - 1][..place] == entries[..place];
    } else {
      assert entries[..place] == entries;
    }
  }

  lemma {:induction false} SearchFindsUnitDelta(entries: seq<Entry>, offset: nat, place: nat)
    requires place <= |entries|
    requires forall k :: 0 <= k < place ==> entries[k].pos - entries[k].delta <= offset
    requires forall k :: place <= k < |entries| ==> entries[k].pos - entries[k].delta > offset
    ensures UnitDeltaUpTo(entries, offset) == LastDelta(entries[..place])
  {
    if place < |entries| {
      SearchFindsUnitDelta(entries[..|entries| - 1], offset, place);
      assert entries[..|entries| - 1][..place] == entries[..place];
    } else {
      assert entries[..place] == entries;
    }
  }

  /** At a boundary the last entry before it has exactly the difference of the two counts. */
  lemma {:induction false} DeltaAtBoundary(chars: seq<Char>, n: nat, end: nat)
    requires AllValid(chars) && n <= end <= |chars|
    ensures DeltaUpTo(Entries(chars, end), Bytes(chars, n)) == Delta(chars, n)
    ensures UnitDeltaUpTo(Entries(chars, end), Units(chars, n)) == Delta(chars, n)
    decreases end
  {
    if n < end {
      DeltaAtBoundary(chars, n, end - 1);
      CountsGrow(chars, n, end);
    } else {
      EntriesBehind(chars, n);
      LastDeltaIsDelta(chars, n);
    }
  }

  lemma CharsUnfold(text: seq<byte>)
    requires text != []
    ensures Chars(text) == [FirstChar(text)] + Chars(text[FirstChar(text).size..])
  {
  }

  /** The scan of a text with these characters after n characters and i bytes. */
  ghost predicate Scanned(text: seq<byte>, chars: seq<Char>, i: nat, n: nat) {
    i <= |text| && n <= |chars| && Chars(text[i..]) == chars[n..]
  }

  /** The scan of the next character, of that many bytes. */
  lemma ScanStep(text: seq<byte>, chars: seq<Char>, i: nat, n: nat, size: nat)
    requires Scanned(text, chars, i, n) && i < |text| && size == FirstChar(text[i..]).size
    ensures n < |chars| && chars[n] == FirstChar(text[i..])
    ensures Scanned(text, chars, i + size, n + 1)
  {
    CharsUnfold(text[i..]);
    var rest := Chars(text[i..][size..]);
    assert chars[n..] == [FirstChar(text[i..])] + rest;
    assert chars[n + 1..] == rest;
    assert text[i..][size..] == text[i + size..];
  }

  lemma ScanStarts(text: seq<byte>)
    ensures Scanned(text, Chars(text), 0, 0)
  {
    assert text[0..] == text;
  }

  lemma ScanEnds(text: seq<byte>, chars: seq<Char>, i: nat, n: nat)
    requires Scanned(text, chars, i, n) && i == |text|
    ensures n == |chars|
  {
    assert Chars(text[i..]) == [];
  }

  /** What the scan has computed after n characters. */
  predicate IsScan(chars: seq<Char>, n: nat, i: nat, delta: int, entries: seq<Entry>) {
    n <= |chars| && i == Bytes(chars, n) && delta == Delta(chars, n) && entries == Entries(chars, n)
  }

  lemma CountStep(chars: seq<Char>, n: nat, i: nat, delta: int, entries: seq<Entry>)
    requires n < |chars| && IsScan(chars, n, i, delta, entries)
    ensures var c := chars[n];
            var delta' := delta + c.size - c.units;
            IsScan(chars, n + 1, i + c.size, delta', if c.ascii then entries else entries + [Entry(i + c.size, delta')])
  {
  }

  lemma AsciiChar(text: seq<byte>)
    requires text != [] && text[0] < 0x80
    ensures FirstChar(text) == Char(true, 1, 1)
  {
  }

  /** The character at i; one below 0x80 is not decoded. */
  method CharAt(text: seq<byte>, i: nat) returns (c: Char)
    requires i < |text|
    ensures c == FirstChar(text[i..])
  {
    assert text[i..][0] == text[i];
    if text[i] < 0x80 {
      AsciiChar(text[i..]);
      return Char(true, 1, 1);
    }
    var d := DecodeJSStringRune(text[i..]);
    c := Char(false, d.size, if d.rune >= 0x10000 then 2 else 1);
  }

  /** Counts a character; one that is ASCII adds no entry. */
  method Count(c: Char, i: nat, delta: int, entries: seq<Entry>, ghost chars: seq<Char>, ghost n: nat)
    returns (i': nat, delta': int, entries': seq<Entry>)
    requires n < |chars| && c == chars[n] && c.Valid() && IsScan(chars, n, i, delta, entries)
    ensures i' == i + c.size && IsScan(chars, n + 1, i', delta', entries')
  {
    CountStep(chars, n, i, delta, entries);
    if c.ascii {
      return i + 1, delta, entries;
    }
    delta' := delta + c.size - c.units;
    entries' := entries + [Entry(i + c.size, delta')];
    i' := i + c.size;
  }

  method ScanChar(text: seq<byte>, i: nat, delta: int, entries: seq<Entry>, ghost chars: seq<Char>, ghost n: nat)
    returns (i': nat, delta': int, entries': seq<Entry>)
    requires i < |text| && Scanned(text, chars, i, n) && IsScan(chars, n, i, delta, entries)
    ensures i < i' && Scanned(text, chars, i', n + 1) && IsScan(chars, n + 1, i', delta', entries')
  {
    var c := CharAt(text, i);
    ScanStep(text, chars, i, n, c.size);
    i', delta', entries' := Count(c, i, delta, entries, chars, n);
  }

  class PositionMap {
    var asciiOnly: bool
    var entries: seq<Entry>

    ghost predicate Valid()
      reads this
    {
      IsAscending(entries) && (asciiOnly <==> entries == [])
    }

    /** ComputePositionMap: the entries of all characters of the text. */
    constructor (text: seq<byte>)
      ensures Valid() && entries == Entries(Chars(text), |Chars(text)|)
    {
      asciiOnly, entries := false, [];
      new;
      ghost var n, chars := 0, Chars(text);
      var i, delta := 0, 0;
      ScanStarts(text);
      while i < |text|
        invariant Scanned(text, chars, i, n) && IsScan(chars, n, i, delta, entries)
      {
        i, delta, entries := ScanChar(text, i, delta, entries, chars, n);
        n := n + 1;
      }
      ScanEnds(text, chars, i, n);
      asciiOnly := |entries| == 0;
      EntriesAscend(chars, n);
    }

    method UTF8ToUTF16(offset: nat) returns (result: int)
      requires Valid()
      ensures result == offset - DeltaUpTo(entries, offset)
    {
      if asciiOnly {
        return offset;
      }
      var lo, hi := 0, |entries|;
      while lo < hi
        invariant 0 <= lo <= hi <= |entries|
        invariant forall k :: 0 <= k < lo ==> entries[k].pos <= offset
        invariant forall k :: hi <= k < |entries| ==> entries[k].pos > offset
      {
        var mid := lo + (hi - lo) / 2;
        if entries[mid].pos <= offset {
          lo := mid + 1;
        } else {
          hi := mid;
        }
      }
      SearchFindsDelta(entries, offset, lo);
      if lo == 0 {
        return offset;
      }
      return offset - entries[lo - 1].delta;
    }

    method UTF16ToUTF8(offset: nat) returns (result: int)
      requires Valid()
      ensures result == offset + UnitDeltaUpTo(entries, offset)
    {
      if asciiOnly {
        return offset;
      }
      var lo, hi := 0, |entries|;
      while lo < hi
        invariant 0 <= lo <= hi <= |entries|
        invariant forall k :: 0 <= k < lo ==> entries[k].pos - entries[k].delta <= offset
        invariant forall k :: hi <= k < |entries| ==> entries[k].pos - entries[k].delta > offset
      {
        var mid := lo + (hi - lo) / 2;
        var utf16Pos := entries[mid].pos - entries[mid].delta;
        if utf16Pos <= offset {
          lo := mid + 1;
        } else {
          hi := mid;
        }
      }
      SearchFindsUnitDelta(entries, offset, lo);
      if lo == 0 {
        return offset;
      }
      return offset + entries[lo - 1].delta;
    }
  }

  /** At every character boundary both conversions are plain counting, and so inverse to each other. */
  lemma ConversionsCount(text: seq<byte>, n: nat)
    requires n <= |Chars(text)|
    ensures var chars := Chars(text);
            var entries := Entries(chars, |chars|);
            && Bytes(chars, n) - DeltaUpTo(entries, Bytes(chars, n)) == Units(chars, n)
            && Units(chars, n) + UnitDeltaUpTo(entries, Units(chars, n)) == Bytes(chars, n)
  {
    DeltaAtBoundary(Chars(text), n, |Chars(text)|);
  }

  /** Both counts are strictly monotone over the boundaries. */
  lemma BoundariesAscend(text: seq<byte>, m: nat, n: nat)
    requires m <= |Chars(text)| && n <= |Chars(text)|
    ensures m < n <==> Bytes(Chars(text), m) < Bytes(Chars(text), n)
    ensures m < n <==> Units(Chars(text), m) < Units(Chars(text), n)
  {
    if m <= n {
      CountsGrow(Chars(text), m, n);
    } else {
      CountsGrow(Chars(text), n, m);
    }
  }

  /** The characters cover the text: the last boundary is its end. */
  lemma {:induction false} CharsCoverText(text: seq<byte>)
    ensures Bytes(Chars(text), |Chars(text)|) == |text|
    decreases |text|
  {
    if text != [] {
      var c := FirstChar(text);
      var rest := Chars(text[c.size..]);
      CharsCoverText(text[c.size..]);
      BytesOfFirst(c, rest, |rest|);
    }
  }

  lemma {:induction false} BytesOfFirst(c: Char, rest: seq<Char>, n: nat)
    requires n <= |rest|
    ensures Bytes([c] + rest, n + 1) == c.size + Bytes(rest, n)
  {
    if n > 0 {
      BytesOfFirst(c, rest, n - 1);
    }
  }
}
