/** String literals of a rule program (packages/sdk/src/index.ts, escapeString and hex). */
module Literals {
  // A JavaScript string is the sequence of its code points; an unpaired surrogate is a code point
  // of its own. The literal is ASCII text.

  import opened Basics
  import opened ProgramText

  type CodePoint = n: int | 0 <= n < 0x11_0000

  // ------------------------------------------------------------------------- hexadecimal

  function HexDigit(d: int): char
    requires 0 <= d < 16
  {
    if d < 10 then ('0' as int + d) as char else ('a' as int + d - 10) as char
  }

  function HexValue(c: char): Option<int> {
    if '0' <= c <= '9' then Some(c as int - '0' as int)
    else if 'a' <= c <= 'f' then Some(c as int - 'a' as int + 10)
    else None
  }

  function ToHex(n: nat): string {
    if n < 16 then [HexDigit(n)] else ToHex(n / 16) + [HexDigit(n % 16)]
  }

  function Zeros(n: nat): string {
    seq(n, _ => '0')
  }

  /** toString(16), padded with zeros. */
  function Hex(code: nat, width: nat): string {
    var digits := ToHex(code);
    if |digits| < width then Zeros(width - |digits|) + digits else digits
  }

  function FromHex(s: string): Option<int> {
    if s == [] then Some(0)
    else
      var init, digit := FromHex(s[..|s| - 1]), HexValue(s[|s| - 1]);
      if init.None? || digit.None? then None else Some(init.value * 16 + digit.value)
  }

  lemma HexDigitRoundTrip(d: int)
    requires 0 <= d < 16
    ensures HexValue(HexDigit(d)) == Some(d)
  {
  }

  lemma {:induction false} HexRoundTrip(n: nat)
    ensures FromHex(ToHex(n)) == Some(n)
    ensures forall i | 0 <= i < |ToHex(n)| :: HexValue(ToHex(n)[i]).Some?
  {
    HexDigitRoundTrip(n % 16);
    if n >= 16 {
      HexRoundTrip(n / 16);
      AppendDigit(ToHex(n / 16), n / 16, n % 16);
    } else {
      assert [HexDigit(n)][..0] == [];
    }
  }

  lemma AppendDigit(s: string, n: nat, d: nat)
    requires d < 16 && FromHex(s) == Some(n) && forall i | 0 <= i < |s| :: HexValue(s[i]).Some?
    ensures FromHex(s + [HexDigit(d)]) == Some(n * 16 + d)
    ensures forall i | 0 <= i < |s| + 1 :: HexValue((s + [HexDigit(d)])[i]).Some?
  {
    HexDigitRoundTrip(d);
    assert (s + [HexDigit(d)])[..|s|] == s;
  }

  lemma {:induction false} ZerosAddNothing(n: nat, s: string)
    ensures FromHex(Zeros(n) + s) == FromHex(s)
  {
    if s != [] {
      assert (Zeros(n) + s)[..n + |s| - 1] == Zeros(n) + s[..|s| - 1];
      ZerosAddNothing(n, s[..|s| - 1]);
    } else if n > 0 {
      assert (Zeros(n) + s)[..n - 1] == Zeros(n - 1) + s;
      ZerosAddNothing(n - 1, s);
    }
  }

  lemma PaddedHexRoundTrip(n: nat, width: nat)
    ensures FromHex(Hex(n, width)) == Some(n)
    ensures forall i | 0 <= i < |Hex(n, width)| :: HexValue(Hex(n, width)[i]).Some?
  {
    HexRoundTrip(n);
    ZerosAddNothing(if |ToHex(n)| < width then width - |ToHex(n)| else 0, ToHex(n));
  }

  /** Two digits are enough for the code points below 256. */
  lemma HexOfByte(n: nat)
    requires n < 256
    ensures |Hex(n, 2)| == 2
  {
    assert n >= 16 ==> |ToHex(n / 16)| == 1;
  }

  // --------------------------------------------------------------------------- escaping

  function EscapeOne(code: CodePoint): string {
    if code == '\\' as int then "\\\\"
    else if code == '"' as int then "\\\""
    else if code == '\'' as int then "\\'"
    else if code == '\n' as int then "\\n"
    else if code == '\t' as int then "\\t"
    else if code < 0x20 || code == 0x7f then "\\x" + Hex(code, 2)
    else if code > 0x7e then "\\u{" + Hex(code, 4) + "}"
    else [code as char]
  }

  /** The concatenation of what a function gives for each code point. */
  function Join(write: CodePoint -> string, value: seq<CodePoint>): string {
    if value == [] then [] else Join(write, value[..|value| - 1]) + write(value[|value| - 1])
  }

  const ESCAPE: CodePoint -> string := (code: CodePoint) => EscapeOne(code)

  function EscapeBody(value: seq<CodePoint>): string {
    Join(ESCAPE, value)
  }

  lemma EscapeStep(value: seq<CodePoint>, i: nat)
    requires i < |value|
    ensures "\"" + EscapeBody(value[..i + 1]) == "\"" + EscapeBody(value[..i]) + EscapeOne(value[i])
  {
    assert value[..i + 1][..i] == value[..i];
  }

  method EscapeString(value: seq<CodePoint>) returns (result: string)
    ensures result == Escape(value)
  {
    result := "\"";
    for i := 0 to |value|
      invariant result == "\"" + EscapeBody(value[..i])
    {
      EscapeStep(value, i);
      result := result + EscapeOne(value[i]);
    }
    assert value[..|value|] == value;
    result := result + "\"";
  }

  function Escape(value: seq<CodePoint>): string {
    "\"" + EscapeBody(value) + "\""
  }

  // -------------------------------------------------------------------------- unescaping

  /** One character or escape of a string body, and what follows it. */
  function ReadOne(s: string): Option<(CodePoint, string)> {
    if s == [] then None
    else if s[0] != '\\' then Some((s[0] as int, s[1..]))
    else if |s| == 1 then None
    else
      match s[1]
      case 'n' => Some(('\n' as int, s[2..]))
      case 't' => Some(('\t' as int, s[2..]))
      case 'x' =>
        if |s| < 4 then None
        else
          var code := FromHex(s[2..4]);
          if code.Some? && 0 <= code.value < 0x11_0000 then Some((code.value, s[4..])) else None
      case 'u' =>
        if |s| < 3 || s[2] != '{' then None
        else
          var end := BraceEnd(s[3..]);
          if end.None? then None
          else
            var code := FromHex(s[3..][..end.value]);
            if code.Some? && 0 <= code.value < 0x11_0000 then Some((code.value, s[3..][end.value + 1..])) else None
      case c => Some((c as int, s[2..]))
  }

  function BraceEnd(s: string): (r: Option<nat>)
    ensures r.Some? ==> r.value < |s|
  {
    if s == [] then None
    else if s[0] == '}' then Some(0)
    else
      var end := BraceEnd(s[1..]);
      if end.None? then None else Some(end.value + 1)
  }

  lemma ReadOneShrinks(s: string)
    ensures ReadOne(s).Some? ==> |ReadOne(s).value.1| < |s|
  {
  }

  /** Reads a string body up to its closing quote, which must end the text. */
  function UnescapeBody(s: string): Option<seq<CodePoint>>
    decreases |s|
  {
    if s == "\"" then Some([])
    else if s == [] || s[0] == '"' then None
    else
      ReadOneShrinks(s);
      var one := ReadOne(s);
      if one.None? then None
      else
        var rest := UnescapeBody(one.value.1);
        if rest.None? then None else Some([one.value.0] + rest.value)
  }

  function Unescape(s: string): Option<seq<CodePoint>> {
    if s == [] || s[0] != '"' then None else UnescapeBody(s[1..])
  }

  lemma {:induction false} BraceEndAfterDigits(digits: string, rest: string)
    requires forall i | 0 <= i < |digits| :: HexValue(digits[i]).Some?
    ensures BraceEnd(digits + "}" + rest) == Some(|digits|)
  {
    if digits == [] {
      assert digits + "}" + rest == "}" + rest;
    } else {
      assert digits[0] != '}';
      assert (digits + "}" + rest)[1..] == digits[1..] + "}" + rest;
      BraceEndAfterDigits(digits[1..], rest);
    }
  }

  /** Each escape is read back, whatever follows it. */
  lemma ReadEscaped(code: CodePoint, rest: string)
    ensures ReadOne(EscapeOne(code) + rest) == Some((code, rest))
    ensures (EscapeOne(code) + rest)[0] != '"'
  {
    var s := EscapeOne(code) + rest;
    if |EscapeOne(code)| == 1 {
      assert s[1..] == rest;
    } else if |EscapeOne(code)| == 2 {
      assert s[2..] == rest;
    } else if code < 0x20 || code == 0x7f {
      HexOfByte(code);
      PaddedHexRoundTrip(code, 2);
      assert s[2..4] == Hex(code, 2) && s[4..] == rest;
    } else {
      ReadBraced(code, rest);
    }
  }

  lemma ReadBraced(code: CodePoint, rest: string)
    ensures ReadOne("\\u{" + Hex(code, 4) + "}" + rest) == Some((code, rest))
  {
    var digits := Hex(code, 4);
    var s := "\\u{" + digits + "}" + rest;
    PaddedHexRoundTrip(code, 4);
    BraceEndAfterDigits(digits, rest);
    assert s[3..] == digits + "}" + rest;
    assert s[3..][..|digits|] == digits && s[3..][|digits| + 1..] == rest;
  }

  lemma {:induction false} JoinFront(write: CodePoint -> string, code: CodePoint, value: seq<CodePoint>)
    ensures Join(write, [code] + value) == write(code) + Join(write, value)
  {
    if value == [] {
      assert [code] + value == [code];
    } else {
      var init := value[..|value| - 1];
      assert ([code] + value)[..|value|] == [code] + init;
      JoinFront(write, code, init);
    }
  }

  lemma EscapeBodyFront(code: CodePoint, value: seq<CodePoint>)
    ensures EscapeBody([code] + value) == EscapeOne(code) + EscapeBody(value)
  {
    JoinFront(ESCAPE, code, value);
  }

  lemma {:induction false} UnescapeBodyOf(value: seq<CodePoint>)
    ensures UnescapeBody(EscapeBody(value) + "\"") == Some(value)
  {
    if value == [] {
      assert EscapeBody(value) + "\"" == "\"";
    } else {
      var code, rest := value[0], EscapeBody(value[1..]) + "\"";
      assert value == [code] + value[1..];
      EscapeBodyFront(code, value[1..]);
      assert EscapeBody(value) + "\"" == EscapeOne(code) + rest;
      ReadEscaped(code, rest);
      UnescapeBodyOf(value[1..]);
    }
  }

  /** Reading a literal gives back the string, for every string. */
  lemma EscapeRoundTrip(value: seq<CodePoint>)
    ensures Unescape(Escape(value)) == Some(value)
  {
    UnescapeBodyOf(value);
    assert Escape(value)[1..] == EscapeBody(value) + "\"";
  }

  // ----------------------------------------------------------------- literals and scanner

  predicate IsPlain(s: string) {
    forall i | 0 <= i < |s| :: s[i] != '"' && s[i] != '\\'
  }

  /** An escaped code point is plain, or a backslash, one more character and plain text. */
  lemma EscapeShape(code: CodePoint)
    ensures var e := EscapeOne(code); IsPlain(e) || (|e| >= 2 && e[0] == '\\' && IsPlain(e[2..]))
  {
    var e := EscapeOne(code);
    if |e| > 2 {
      var width := if code < 0x20 || code == 0x7f then 2 else 4;
      HexIsPlain(code, width);
      assert e[2..] == if width == 2 then Hex(code, 2) else "{" + Hex(code, 4) + "}";
    }
  }

  lemma HexIsPlain(code: nat, width: nat)
    ensures IsPlain(Hex(code, width)) && IsPlain("{" + Hex(code, width) + "}")
  {
    PaddedHexRoundTrip(code, width);
  }

  /** An escaped code point is passed over by the scanner as a whole. */
  lemma EscapedIsPassed(e: string, rest: string)
    requires IsPlain(e) || (|e| >= 2 && e[0] == '\\' && IsPlain(e[2..]))
    ensures ClosesBody(e + rest, '"') == ClosesBody(rest, '"')
  {
    if IsPlain(e) {
      PlainIsPassed(e, rest);
    } else {
      assert (e + rest)[2..] == e[2..] + rest;
      PlainIsPassed(e[2..], rest);
    }
  }

  lemma {:induction false} PlainIsPassed(plain: string, rest: string)
    requires IsPlain(plain)
    ensures ClosesBody(plain + rest, '"') == ClosesBody(rest, '"')
  {
    if plain == [] {
      assert plain + rest == rest;
    } else {
      assert (plain + rest)[1..] == plain[1..] + rest;
      PlainIsPassed(plain[1..], rest);
    }
  }

  lemma {:induction false} EscapedBodyCloses(value: seq<CodePoint>)
    ensures ClosesBody(EscapeBody(value) + "\"", '"')
  {
    if value == [] {
      assert EscapeBody(value) + "\"" == "\"";
    } else {
      assert value == [value[0]] + value[1..];
      EscapeBodyFront(value[0], value[1..]);
      assert EscapeBody(value) + "\"" == EscapeOne(value[0]) + (EscapeBody(value[1..]) + "\"");
      EscapeShape(value[0]);
      EscapedIsPassed(EscapeOne(value[0]), EscapeBody(value[1..]) + "\"");
      EscapedBodyCloses(value[1..]);
    }
  }

  /** The scanner takes a literal as one quoted token, whatever follows it, and the text after a
      literal is split as if it stood alone. */
  lemma LiteralIsOneToken(value: seq<CodePoint>, rest: string)
    ensures Lex(Escape(value) + rest) == [Token(QuotedToken, Escape(value))] + Lex(rest)
    ensures Split(Escape(value) + rest) == Escape(value) + Split(rest)
  {
    var literal, body := Escape(value), EscapeBody(value) + "\"";
    EscapedBodyCloses(value);
    assert (literal + rest)[1..] == body + rest;
    QuotedBodyBefore(body, rest, '"');
    assert (literal + rest)[..|literal|] == literal && (literal + rest)[|literal|..] == rest;
  }
}
