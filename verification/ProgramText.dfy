/** The text of a rule program: the scanner that splits clause-ending dots off name constants
    (engine/program.go, splitConstantTerminators). Its texts are sequences of bytes. */
module ProgramText {
  // Only ASCII bytes are special to the scanner.

  // ------------------------------------------------------------------------------ tokens

  datatype Kind = CommentToken | QuotedToken | NameToken | OtherToken

  /** A token: a comment without its line end, a quoted string, a name constant, or any other
      single byte. */
  datatype Token = Token(kind: Kind, text: string)

  predicate IsConstantChar(c: char) {
    'a' <= c <= 'z' || 'A' <= c <= 'Z' || '0' <= c <= '9' || c in ".-_~%/"
  }

  predicate IsQuote(c: char) {
    c == '"' || c == '\'' || c == '`'
  }

  function KindAt(c: char): Kind {
    if c == '#' then CommentToken else if IsQuote(c) then QuotedToken else if c == '/' then NameToken else OtherToken
  }

  /** The position of the line end, or the end of the text. */
  function LineEnd(s: string): (n: nat)
    ensures n <= |s|
  {
    if s == [] || s[0] == '\n' then 0 else 1 + LineEnd(s[1..])
  }

  /** The length of the body of a quoted string with its closing quote, when there is one. */
  function QuotedBody(s: string, quote: char): (n: nat)
    ensures n <= |s|
  {
    if s == [] then 0
    else if s[0] == quote then 1
    else if s[0] == '\\' then
      if |s| == 1 then 1 else 2 + QuotedBody(s[2..], quote)
    else 1 + QuotedBody(s[1..], quote)
  }

  function ConstantRun(s: string): (n: nat)
    ensures n <= |s|
  {
    if s == [] || !IsConstantChar(s[0]) then 0 else 1 + ConstantRun(s[1..])
  }

  /** The length of the first token of a text. */
  function FirstLength(s: string): (n: nat)
    requires s != []
    ensures 0 < n <= |s|
  {
    match KindAt(s[0])
    case CommentToken => 1 + LineEnd(s[1..])
    case QuotedToken => 1 + QuotedBody(s[1..], s[0])
    case NameToken => 1 + ConstantRun(s[1..])
    case OtherToken => 1
  }

  function FirstToken(s: string): Token
    requires s != []
  {
    Token(KindAt(s[0]), s[..FirstLength(s)])
  }

  function Lex(s: string): seq<Token> {
    if s == [] then [] else [FirstToken(s)] + Lex(s[FirstLength(s)..])
  }

  function TextOf(ts: seq<Token>): string {
    if ts == [] then [] else ts[0].text + TextOf(ts[1..])
  }

  /** Tokens cover the text byte for byte. */
  lemma {:induction false} LexIsLossless(s: string)
    ensures TextOf(Lex(s)) == s
  {
    if s != [] {
      LexIsLossless(s[FirstLength(s)..]);
      assert s == s[..FirstLength(s)] + s[FirstLength(s)..];
    }
  }

  // --------------------------------------------------------------------------- splitting

  predicate IsBlank(c: char) {
    c == ' ' || c == '\t'
  }

  predicate EndsLine(c: char) {
    c in "\r\n\U{0C}#"
  }

  /** A name that may end with the dot of its clause. */
  predicate EndsWithDot(name: string) {
    |name| > 2 && name[|name| - 1] == '.'
  }

  function Init(name: string): string
    requires name != []
  {
    name[..|name| - 1]
  }

  /** How a name constant is printed before the rest of the text. */
  function PrintName(name: string, rest: string): string {
    if EndsWithDot(name) && rest != [] && IsBlank(rest[0]) then Init(name) + [rest[0], '.']
    else if EndsWithDot(name) && (rest == [] || EndsLine(rest[0])) then Init(name) + " ."
    else name
  }

  /** The bytes of the rest that are printed with the name: a blank changes places with the dot. */
  function TakenByName(name: string, rest: string): (n: nat)
    ensures n <= |rest|
  {
    if EndsWithDot(name) && rest != [] && IsBlank(rest[0]) then 1 else 0
  }

  /** What is printed for the first token, and the number of bytes it stands for. */
  function FirstPiece(s: string): (r: (string, nat))
    requires s != []
    ensures 0 < r.1 <= |s|
  {
    var token, rest := s[..FirstLength(s)], s[FirstLength(s)..];
    if s[0] == '/' then (PrintName(token, rest), |token| + TakenByName(token, rest)) else (token, |token|)
  }

  /** The text with a space between each name constant and its clause-ending dot. */
  function Split(s: string): string
    decreases |s|
  {
    if s == [] then [] else FirstPiece(s).0 + Split(s[FirstPiece(s).1..])
  }

  /** `first` and `split` with their definitions: the proofs over them do not unfold the scanning of tokens. */
  ghost predicate Splits(first: string -> (string, nat), split: string -> string) {
    split([]) == [] && forall s {:trigger SplitsAt(first, split, s)} :: SplitsAt(first, split, s)
  }

  predicate SplitsAt(first: string -> (string, nat), split: string -> string, s: string) {
    s != [] ==> 0 < first(s).1 <= |s| && split(s) == first(s).0 + split(s[first(s).1..])
  }

  function FirstOf(): string -> (string, nat) {
    s => if s == [] then ([], 0) else FirstPiece(s)
  }

  function SplitOf(): string -> string {
    s => Split(s)
  }

  lemma SplitUnfold(s: string)
    requires s != []
    ensures Split(s) == FirstPiece(s).0 + Split(s[FirstPiece(s).1..])
  {
  }

  lemma SplitSplits()
    ensures Splits(FirstOf(), SplitOf())
  {
    forall s ensures SplitsAt(FirstOf(), SplitOf(), s) {
      if s != [] { SplitUnfold(s); }
    }
  }

  /** The scanner. */
  method SplitConstantTerminators(text: string) returns (out: string)
    ensures out == Split(text)
  {
    SplitSplits();
    out := SplitText(text, FirstOf(), SplitOf());
  }

  method SplitText(text: string, ghost first: string -> (string, nat), ghost split: string -> string)
    returns (out: string)
    requires Splits(first, split) && IsFirst(first)
    ensures out == split(text)
  {
    out := "";
    var i := 0;
    assert text[0..] == text;
    while i < |text|
      invariant 0 <= i <= |text|
      invariant split(text) == out + split(text[i..])
    {
      var piece, j := NextPieceOf(text, i, first);
      SplitStep(out, text, i, piece, j, first, split);
      out, i := out + piece, j;
    }
    assert text[i..] == [];
  }

  lemma SplitStep(out: string, text: string, i: nat, piece: string, j: nat,
                  first: string -> (string, nat), split: string -> string)
    requires Splits(first, split) && i < j <= |text| && (piece, j - i) == first(text[i..])
    ensures out + split(text[i..]) == out + piece + split(text[j..])
  {
    var s, rest := text[i..], split(text[j..]);
    assert SplitsAt(first, split, s) && s[j - i..] == text[j..];
    assert split(s) == piece + rest && out + (piece + rest) == (out + piece) + rest;
  }

  ghost predicate IsFirst(first: string -> (string, nat)) {
    forall s {:trigger FirstPiece(s)} :: s != [] ==> first(s) == FirstPiece(s)
  }

  method NextPieceOf(text: string, i: nat, ghost first: string -> (string, nat)) returns (piece: string, next: nat)
    requires i < |text| && IsFirst(first)
    ensures i < next <= |text| && (piece, next - i) == first(text[i..])
  {
    piece, next := NextPiece(text, i);
  }

  /** Prints the token at a position, and gives the position after it. */
  method NextPiece(text: string, i: nat) returns (piece: string, next: nat)
    requires i < |text|
    ensures (piece, next - i) == FirstPiece(text[i..])
  {
    ghost var s := text[i..];
    var j := TokenEnd(text, i);
    assert text[i..j] == s[..j - i] && text[j..] == s[j - i..] && text[i] == s[0];
    FirstPieceOf(s, j - i);
    if text[i] == '/' {
      piece, next := PrintNameAt(text, i, j);
    } else {
      piece, next := text[i..j], j;
    }
  }

  lemma FirstPieceOf(s: string, n: nat)
    requires s != [] && n == FirstLength(s)
    ensures FirstPiece(s) ==
            if s[0] == '/' then (PrintName(s[..n], s[n..]), n + TakenByName(s[..n], s[n..])) else (s[..n], n)
  {
  }

  /** The position after the token at a position. */
  method TokenEnd(text: string, i: nat) returns (j: nat)
    requires i < |text|
    ensures i < j <= |text| && j - i == FirstLength(text[i..])
  {
    var c := text[i];
    assert text[i..][1..] == text[i + 1..];
    j := i + 1;
    if c == '#' {
      j := ScanLine(text, i + 1);
    } else if IsQuote(c) {
      j := ScanQuoted(text, i + 1, c);
    } else if c == '/' {
      j := ScanConstant(text, i + 1);
    }
  }

  method PrintNameAt(text: string, i: nat, j: nat) returns (piece: string, next: nat)
    requires i < j <= |text|
    ensures piece == PrintName(text[i..j], text[j..]) && next == j + TakenByName(text[i..j], text[j..])
  {
    var token := text[i..j];
    piece, next := token, j;
    if |token| > 2 && token[|token| - 1] == '.' {
      if j < |text| && (text[j] == ' ' || text[j] == '\t') {
        piece, next := token[..|token| - 1] + [text[j], '.'], j + 1;
      } else if j == |text| || text[j] in "\r\n\U{0C}#" {
        piece := token[..|token| - 1] + " .";
      }
    }
  }

  method ScanLine(text: string, from: nat) returns (end: nat)
    requires from <= |text|
    ensures from <= end <= |text| && end - from == LineEnd(text[from..])
  {
    end := from;
    while end < |text| && text[end] != '\n'
      invariant from <= end <= |text|
      invariant LineEnd(text[from..]) == end - from + LineEnd(text[end..])
    {
      assert text[end..][1..] == text[end + 1..];
      end := end + 1;
    }
  }

  /** Finds the end of a quoted string; an escape may reach past the end of the text. */
  method ScanQuoted(text: string, from: nat, quote: char) returns (end: nat)
    requires from <= |text| && quote != '\\'
    ensures from <= end <= |text| && end - from == QuotedBody(text[from..], quote)
  {
    var j := from;
    while j < |text| && text[j] != quote
      invariant from <= j <= |text| + 1
      invariant QuotedBody(text[from..], quote) ==
                if j <= |text| then j - from + QuotedBody(text[j..], quote) else |text| - from
    {
      if text[j] == '\\' {
        if j + 2 <= |text| { assert text[j..][2..] == text[j + 2..]; }
        j := j + 1;
      } else {
        assert text[j..][1..] == text[j + 1..];
      }
      j := j + 1;
    }
    end := if j + 1 <= |text| then j + 1 else |text|;
  }

  method ScanConstant(text: string, from: nat) returns (end: nat)
    requires from <= |text|
    ensures from <= end <= |text| && end - from == ConstantRun(text[from..])
  {
    end := from;
    while end < |text| && IsConstantChar(text[end])
      invariant from <= end <= |text|
      invariant ConstantRun(text[from..]) == end - from + ConstantRun(text[end..])
    {
      assert text[end..][1..] == text[end + 1..];
      end := end + 1;
    }
  }

  // --------------------------------------------------------------- what splitting keeps

  function NonBlank(s: string): string {
    if s == [] then [] else (if IsBlank(s[0]) then [] else [s[0]]) + NonBlank(s[1..])
  }

  lemma NonBlankCons(c: char, s: string)
    ensures NonBlank([c] + s) == (if IsBlank(c) then [] else [c]) + NonBlank(s)
  {
    assert ([c] + s)[1..] == s;
  }

  lemma {:induction false} NonBlankConcat(a: string, b: string)
    ensures NonBlank(a + b) == NonBlank(a) + NonBlank(b)
  {
    if a == [] {
      assert a + b == b;
    } else {
      NonBlankConcat(a[1..], b);
      assert a + b == [a[0]] + (a[1..] + b) && a == [a[0]] + a[1..];
      NonBlankCons(a[0], a[1..] + b);
      NonBlankCons(a[0], a[1..]);
    }
  }

  lemma PrintNameKeepsNonBlank(name: string, rest: string)
    ensures NonBlank(PrintName(name, rest)) == NonBlank(name + rest[..TakenByName(name, rest)])
  {
    if EndsWithDot(name) && (rest == [] || IsBlank(rest[0]) || EndsLine(rest[0])) {
      var blank := if rest != [] && IsBlank(rest[0]) then rest[0] else ' ';
      assert name == Init(name) + ['.'];
      assert PrintName(name, rest) == Init(name) + [blank, '.'];
      NonBlankDot(Init(name), blank);
      if rest != [] && IsBlank(rest[0]) {
        NonBlankThen(name, blank);
        assert rest[..1] == [blank];
      } else {
        assert name + rest[..0] == name;
      }
    } else {
      assert name + rest[..0] == name;
    }
  }

  lemma NonBlankThen(s: string, blank: char)
    requires IsBlank(blank)
    ensures NonBlank(s + [blank]) == NonBlank(s)
  {
    NonBlankConcat(s, [blank]);
    assert [blank][1..] == [];
  }

  lemma NonBlankDot(s: string, blank: char)
    requires IsBlank(blank)
    ensures NonBlank(s + [blank, '.']) == NonBlank(s + ['.'])
  {
    NonBlankConcat(s, [blank, '.']);
    NonBlankConcat(s, ['.']);
    assert [blank, '.'][1..] == ['.'];
  }

  lemma FirstPieceKeepsNonBlank(s: string)
    requires s != []
    ensures NonBlank(FirstPiece(s).0) == NonBlank(s[..FirstPiece(s).1])
  {
    var n := FirstLength(s);
    var token, rest := s[..n], s[n..];
    if s[0] == '/' {
      PrintNameKeepsNonBlank(token, rest);
      var k := TakenByName(token, rest);
      assert s[..n + k] == token + rest[..k];
    }
  }

  lemma NonBlankStep(piece: string, later: string, taken: string, rest: string)
    requires NonBlank(piece) == NonBlank(taken) && NonBlank(later) == NonBlank(rest)
    ensures NonBlank(piece + later) == NonBlank(taken + rest)
  {
    NonBlankConcat(piece, later);
    NonBlankConcat(taken, rest);
  }

  lemma {:induction false} NonBlankBy(first: string -> (string, nat), split: string -> string, s: string)
    requires Splits(first, split)
    requires forall t {:trigger first(t)} ::
               t != [] && 0 < first(t).1 <= |t| ==> NonBlank(first(t).0) == NonBlank(t[..first(t).1])
    ensures NonBlank(split(s)) == NonBlank(s)
  {
    if s != [] {
      assert SplitsAt(first, split, s);
      var piece := first(s);
      var taken, rest := s[..piece.1], s[piece.1..];
      NonBlankBy(first, split, rest);
      NonBlankStep(piece.0, split(rest), taken, rest);
      assert s == taken + rest;
    }
  }

  /** Splitting changes nothing but blanks: the other bytes stay, in order. */
  lemma SplitKeepsNonBlank(s: string)
    ensures NonBlank(Split(s)) == NonBlank(s)
  {
    SplitSplits();
    forall t: string | t != [] ensures NonBlank(FirstOf()(t).0) == NonBlank(t[..FirstOf()(t).1]) {
      FirstPieceKeepsNonBlank(t);
    }
    NonBlankBy(FirstOf(), SplitOf(), s);
  }

  /** Splitting an empty text gives an empty text, and no text changes its first byte. */
  lemma SplitKeepsFirst(s: string)
    ensures Split(s) == [] <==> s == []
    ensures s != [] ==> Split(s)[0] == s[0]
  {
  }

  /** The body of a quoted string that ends with its own closing quote. */
  predicate ClosesBody(body: string, quote: char) {
    if body == [] then false
    else if body[0] == quote then |body| == 1
    else if body[0] == '\\' then |body| > 1 && ClosesBody(body[2..], quote)
    else ClosesBody(body[1..], quote)
  }

  lemma {:induction false} LineEndBefore(a: string, rest: string)
    requires LineEnd(a) == |a| && (rest == [] || rest[0] == '\n')
    ensures LineEnd(a + rest) == |a|
  {
    if a == [] {
      assert a + rest == rest;
    } else {
      assert (a + rest)[1..] == a[1..] + rest;
      LineEndBefore(a[1..], rest);
    }
  }

  lemma {:induction false} ConstantRunBefore(a: string, rest: string)
    requires ConstantRun(a) == |a| && (rest == [] || !IsConstantChar(rest[0]))
    ensures ConstantRun(a + rest) == |a|
  {
    if a == [] {
      assert a + rest == rest;
    } else {
      assert (a + rest)[1..] == a[1..] + rest;
      ConstantRunBefore(a[1..], rest);
    }
  }

  lemma {:induction false} QuotedBodyBefore(body: string, rest: string, quote: char)
    requires ClosesBody(body, quote)
    ensures QuotedBody(body + rest, quote) == |body|
    decreases |body|
  {
    if body[0] == quote {
    } else if body[0] == '\\' {
      assert (body + rest)[2..] == body[2..] + rest;
      QuotedBodyBefore(body[2..], rest, quote);
    } else {
      assert (body + rest)[1..] == body[1..] + rest;
      QuotedBodyBefore(body[1..], rest, quote);
    }
  }

  /** What the first token of a text is by itself. */
  lemma {:induction false} TokenParts(s: string)
    ensures LineEnd(s[..LineEnd(s)]) == LineEnd(s) && (LineEnd(s) == |s| || s[LineEnd(s)] == '\n')
    ensures ConstantRun(s[..ConstantRun(s)]) ==
            ConstantRun(s) && (ConstantRun(s) == |s| || !IsConstantChar(s[ConstantRun(s)]))
    decreases |s|
  {
    if s != [] {
      TokenParts(s[1..]);
      if s[0] != '\n' { assert s[..LineEnd(s)][1..] == s[1..][..LineEnd(s[1..])]; }
      if IsConstantChar(s[0]) { assert s[..ConstantRun(s)][1..] == s[1..][..ConstantRun(s[1..])]; }
    }
  }

  lemma {:induction false} QuotedParts(s: string, quote: char)
    ensures var n := QuotedBody(s, quote); ClosesBody(s[..n], quote) || n == |s|
    decreases |s|
  {
    if s == [] || s[0] == quote {
    } else if s[0] == '\\' && |s| > 1 {
      QuotedParts(s[2..], quote);
      assert s[..QuotedBody(s, quote)][2..] == s[2..][..QuotedBody(s[2..], quote)];
    } else if s[0] != '\\' {
      QuotedParts(s[1..], quote);
      assert s[..QuotedBody(s, quote)][1..] == s[1..][..QuotedBody(s[1..], quote)];
    }
  }

  lemma FirstLengthStays(s: string, u: string)
    requires s != []
    requires var rest := s[FirstLength(s)..];
             (u == [] <==> rest == []) && (rest != [] ==> u[0] == rest[0])
    ensures FirstLength(s[..FirstLength(s)] + u) == FirstLength(s)
  {
    var n, body := FirstLength(s), s[1..];
    var token := s[..n];
    assert token[1..] == body[..n - 1] && (token + u)[1..] == body[..n - 1] + u;
    TokenParts(body);
    match KindAt(s[0]) {
      case CommentToken => LineEndBefore(body[..n - 1], u);
      case QuotedToken =>
        QuotedParts(body, s[0]);
        if ClosesBody(body[..n - 1], s[0]) {
          QuotedBodyBefore(body[..n - 1], u, s[0]);
        } else {
          assert token + u == s;
        }
      case NameToken => ConstantRunBefore(body[..n - 1], u);
      case OtherToken =>
    }
  }

  lemma LexPrefix(token: string, u: string)
    requires token != [] && FirstLength(token + u) == |token|
    ensures Lex(token + u) == [Token(KindAt(token[0]), token)] + Lex(u)
  {
    assert (token + u)[..|token|] == token && (token + u)[|token|..] == u;
  }

  /** A token stays the first token when the text after it keeps its first byte. */
  lemma FirstTokenStays(s: string, u: string)
    requires s != []
    requires var rest := s[FirstLength(s)..];
             (u == [] <==> rest == []) && (rest != [] ==> u[0] == rest[0])
    ensures Lex(FirstToken(s).text + u) == [FirstToken(s)] + Lex(u)
  {
    FirstLengthStays(s, u);
    LexPrefix(s[..FirstLength(s)], u);
  }

  lemma {:induction false} ConstantRunOfPrefix(a: string, k: nat)
    requires ConstantRun(a) == |a| && k <= |a|
    ensures ConstantRun(a[..k]) == k
  {
    if k > 0 {
      ConstantRunOfPrefix(a[1..], k - 1);
      assert a[..k][1..] == a[1..][..k - 1];
    }
  }

  lemma TailOfInit(s: string, n: nat)
    requires 2 <= n <= |s|
    ensures Init(s[..n])[1..] == s[1..][..n - 1][..n - 2]
  {}

  lemma ShortenedLength(s: string, u: string)
    requires s != [] && s[0] == '/' && EndsWithDot(s[..FirstLength(s)]) && u != [] && IsBlank(u[0])
    ensures FirstLength(Init(s[..FirstLength(s)]) + u) == FirstLength(s) - 1
  {
    var n := FirstLength(s);
    var name := Init(s[..n]);
    TokenParts(s[1..]);
    ConstantRunOfPrefix(s[1..][..n - 1], n - 2);
    TailOfInit(s, n);
    assert (name + u)[1..] == name[1..] + u;
    ConstantRunBefore(name[1..], u);
  }

  /** A name constant without its last dot is a token before a blank. */
  lemma ShortenedName(s: string, u: string)
    requires s != [] && s[0] == '/' && EndsWithDot(s[..FirstLength(s)]) && u != [] && IsBlank(u[0])
    ensures var name := Init(s[..FirstLength(s)]); Lex(name + u) == [Token(NameToken, name)] + Lex(u)
  {
    var name := Init(s[..FirstLength(s)]);
    ShortenedLength(s, u);
    LexPrefix(name, u);
  }

  predicate IsBlankToken(t: Token) {
    t.kind == OtherToken && t.text != [] && IsBlank(t.text[0])
  }

  function Significant(ts: seq<Token>): seq<Token> {
    if ts == [] then [] else (if IsBlankToken(ts[0]) then [] else [ts[0]]) + Significant(ts[1..])
  }

  lemma SignificantCons(t: Token, ts: seq<Token>)
    ensures Significant([t] + ts) == (if IsBlankToken(t) then [] else [t]) + Significant(ts)
  {
    assert ([t] + ts)[1..] == ts;
  }

  /** The end of a clause can follow: white space, a comment or the end of the text. */
  predicate ClauseCanEnd(ts: seq<Token>) {
    ts == [] || ts[0].kind == CommentToken
    || (ts[0].kind == OtherToken && ts[0].text != [] && (IsBlank(ts[0].text[0]) || EndsLine(ts[0].text[0])))
  }

  predicate LosesDot(t: Token, rest: seq<Token>) {
    t.kind == NameToken && EndsWithDot(t.text) && ClauseCanEnd(rest)
  }

  /** The tokens with the clause-ending dot of each name constant as a token of its own. */
  function SplitDots(ts: seq<Token>): seq<Token> {
    if ts == [] then []
    else if LosesDot(ts[0], ts[1..]) then
      [Token(NameToken, Init(ts[0].text)), Token(OtherToken, ".")] + SplitDots(ts[1..])
    else [ts[0]] + SplitDots(ts[1..])
  }

  lemma ClauseCanEndAt(rest: string)
    ensures ClauseCanEnd(Lex(rest)) <==> rest == [] || IsBlank(rest[0]) || EndsLine(rest[0])
  {
  }

  lemma OtherTokenFirst(c: char, u: string)
    requires KindAt(c) == OtherToken
    ensures Lex([c] + u) == [Token(OtherToken, [c])] + Lex(u)
  {
    assert ([c] + u)[..1] == [c] && ([c] + u)[1..] == u;
  }

  /** The tokens after the shortened name: a blank and the dot. */
  lemma DotTokens(s: string, blank: char, u: string)
    requires s != [] && s[0] == '/' && EndsWithDot(s[..FirstLength(s)]) && IsBlank(blank)
    ensures var name := Init(s[..FirstLength(s)]);
            Significant(Lex(name + [blank, '.'] + u)) ==
            [Token(NameToken, name), Token(OtherToken, ".")] + Significant(Lex(u))
  {
    var name := Init(s[..FirstLength(s)]);
    var tail := [blank] + (['.'] + u);
    assert name + [blank, '.'] + u == name + tail;
    ShortenedName(s, tail);
    NameThenDot(Token(NameToken, name), blank, u);
  }

  lemma NameThenDot(t: Token, blank: char, u: string)
    requires IsBlank(blank) && !IsBlankToken(t)
    ensures Significant([t] + Lex([blank] + (['.'] + u))) == [t, Token(OtherToken, ".")] + Significant(Lex(u))
  {
    SignificantCons(t, Lex([blank] + (['.'] + u)));
    BlankDotTokens(blank, u);
  }

  lemma BlankDotTokens(blank: char, u: string)
    requires IsBlank(blank)
    ensures Significant(Lex([blank] + (['.'] + u))) == [Token(OtherToken, ".")] + Significant(Lex(u))
  {
    OtherTokenFirst(blank, ['.'] + u);
    OtherTokenFirst('.', u);
    SignificantCons(Token(OtherToken, [blank]), Lex(['.'] + u));
    SignificantCons(Token(OtherToken, "."), Lex(u));
  }

  /** The same for the tokens of the text before the split. */
  lemma DotTokensBefore(t: Token, ts: seq<Token>)
    requires LosesDot(t, ts)
    ensures Significant(SplitDots([t] + ts)) ==
            [Token(NameToken, Init(t.text)), Token(OtherToken, ".")] + Significant(SplitDots(ts))
  {
    assert ([t] + ts)[1..] == ts;
    SignificantTwo(Token(NameToken, Init(t.text)), Token(OtherToken, "."), SplitDots(ts));
  }

  lemma SignificantTwo(a: Token, b: Token, ts: seq<Token>)
    requires !IsBlankToken(a) && !IsBlankToken(b)
    ensures Significant([a, b] + ts) == [a, b] + Significant(ts)
  {
    assert [a, b] + ts == [a] + ([b] + ts);
    SignificantCons(a, [b] + ts);
    SignificantCons(b, ts);
  }

  /** Up to blanks, the tokens of the split text are the tokens of the text with each
      clause-ending dot split off its name constant; strings and comments are untouched. */
  lemma {:induction false} SplitSplitsDots(s: string)
    ensures Significant(Lex(Split(s))) == Significant(SplitDots(Lex(s)))
    decreases |s|
  {
    if s != [] {
      var n, t := FirstLength(s), FirstToken(s);
      var rest := s[n..];
      var ts := Lex(rest);
      assert Lex(s) == [t] + ts && ([t] + ts)[1..] == ts;
      ClauseCanEndAt(rest);
      if LosesDot(t, ts) {
        SplitNameKeepsTokens(s);
      } else {
        assert Split(s) == t.text + Split(rest);
        SplitKeepsFirst(rest);
        FirstTokenStays(s, Split(rest));
        SplitSplitsDots(rest);
        SignificantCons(t, Lex(Split(rest)));
        SignificantCons(t, SplitDots(ts));
      }
    }
  }

  /** How a text with a split name constant is printed. */
  lemma SplitOfName(s: string) returns (blank: char, u: string)
    requires s != [] && LosesDot(FirstToken(s), Lex(s[FirstLength(s)..]))
    ensures IsBlank(blank) && |u| < |s|
    ensures Split(s) == Init(FirstToken(s).text) + [blank, '.'] + Split(u)
    ensures var rest := s[FirstLength(s)..]; rest == u || rest == [blank] + u
  {
    var rest := s[FirstLength(s)..];
    ClauseCanEndAt(rest);
    FirstPieceOf(s, FirstLength(s));
    SplitUnfold(s);
    if rest != [] && IsBlank(rest[0]) {
      blank, u := rest[0], rest[1..];
      assert s[FirstPiece(s).1..] == u;
    } else {
      blank, u := ' ', rest;
    }
  }

  lemma {:induction false} SplitNameKeepsTokens(s: string)
    requires s != [] && LosesDot(FirstToken(s), Lex(s[FirstLength(s)..]))
    ensures Significant(Lex(Split(s))) == Significant(SplitDots(Lex(s)))
    decreases |s|, 0
  {
    var t, rest := FirstToken(s), s[FirstLength(s)..];
    var blank, u := SplitOfName(s);
    DotTokens(s, blank, Split(u));
    SplitSplitsDots(u);
    DotTokensBefore(t, Lex(rest));
    BlankBefore(blank, u);
    assert Lex(s) == [t] + Lex(rest);
  }

  lemma BlankBefore(blank: char, u: string)
    requires IsBlank(blank)
    ensures Significant(SplitDots(Lex([blank] + u))) == Significant(SplitDots(Lex(u)))
  {
    OtherTokenFirst(blank, u);
    assert ([Token(OtherToken, [blank])] + Lex(u))[1..] == Lex(u);
    SignificantCons(Token(OtherToken, [blank]), SplitDots(Lex(u)));
  }
}
