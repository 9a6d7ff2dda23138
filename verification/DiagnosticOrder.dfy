/** The comparators of compiler diagnostics: trees of message chains and related information. */
module DiagnosticOrder {
  import opened Basics
  import opened Ordering

  /** The name of a source file, which is absolute and so never empty. */
  type FileName = s: string | s != "" witness "/"

  datatype Diagnostic = Diagnostic(
    file: Option<FileName>,
    pos: int,
    end: int,
    code: int,
    category: int,
    source: string,
    message: Option<string>,
    messageText: string,
    messageKey: string,
    args: seq<string>,
    chain: seq<Diagnostic>,
    related: seq<Diagnostic>)
  {
    function Path(): string {
      match file
      case Some(name) => name
      case None => ""
    }

    function Identity(): string {
      if messageText != "" then messageText
      else if message.Some? && code == -1 then message.value
      else messageKey
    }
  }

  /** The result of a comparison that goes on when it finds no difference. */
  function Then(first: int, second: int): int {
    if first != 0 then first else second
  }

  /** Longer chains first, then the sizes of the chains below, in order. */
  function CompareChainSize(a: seq<Diagnostic>, b: seq<Diagnostic>): int
    decreases a
  {
    if |a| != |b| then |b| - |a|
    else if a == [] then 0
    else Then(CompareChainSize(a[0].chain, b[0].chain), CompareChainSize(a[1..], b[1..]))
  }

  /** The arguments of chains of one shape; compareMessageChainContent indexes b by the length of a. */
  function CompareChainContent(a: seq<Diagnostic>, b: seq<Diagnostic>): int
    requires CompareChainSize(a, b) == 0
    decreases a
  {
    if a == [] then 0
    else
      Then(CompareLists(a[0].args, b[0].args),
           Then(CompareChainContent(a[0].chain, b[0].chain), CompareChainContent(a[1..], b[1..])))
  }

  function CompareChains(a: seq<Diagnostic>, b: seq<Diagnostic>): int {
    var size := CompareChainSize(a, b);
    if size != 0 then size else CompareChainContent(a, b)
  }

  function CompareLocation(a: Diagnostic, b: Diagnostic): int {
    Then(Compare(a.Path(), b.Path()), Then(a.pos - b.pos, a.end - b.end))
  }

  function CompareMessage(a: Diagnostic, b: Diagnostic): int {
    Then(a.code - b.code,
         Then(a.category - b.category,
              Then(Compare(a.source, b.source),
                   Then(Compare(a.Identity(), b.Identity()), CompareLists(a.args, b.args)))))
  }

  function CompareHead(a: Diagnostic, b: Diagnostic): int {
    Then(Then(CompareLocation(a, b), CompareMessage(a, b)), CompareChains(a.chain, b.chain))
  }

  /** Longer lists first, then diagnostic by diagnostic. */
  function CompareRelated(a: seq<Diagnostic>, b: seq<Diagnostic>): int
    decreases a
  {
    if |a| != |b| then |b| - |a|
    else if a == [] then 0
    else Then(CompareDiagnostics(a[0], b[0]), CompareRelated(a[1..], b[1..]))
  }

  /** CompareDiagnostics returns 0 at once in Go for one pointer; CompareIsReflexive shows that this changes nothing. */
  function CompareDiagnostics(a: Diagnostic, b: Diagnostic): int
    decreases a
  {
    Then(CompareHead(a, b), CompareRelated(a.related, b.related))
  }

  predicate EqualChains(a: seq<Diagnostic>, b: seq<Diagnostic>)
    decreases a
  {
    && |a| == |b|
    && (a != [] ==>
          a[0].code == b[0].code && a[0].args == b[0].args && EqualChains(a[0].chain, b[0].chain) &&
          EqualChains(a[1..], b[1..]))
  }

  predicate EqualHead(a: Diagnostic, b: Diagnostic) {
    && a.Path() == b.Path()
    && a.pos == b.pos && a.end == b.end
    && a.code == b.code
    && a.category == b.category
    && a.source == b.source
    && a.Identity() == b.Identity()
    && a.args == b.args
    && EqualChains(a.chain, b.chain)
  }

  predicate EqualRelated(a: seq<Diagnostic>, b: seq<Diagnostic>)
    decreases a
  {
    |a| == |b| && (a != [] ==> EqualDiagnostics(a[0], b[0]) && EqualRelated(a[1..], b[1..]))
  }

  predicate EqualDiagnostics(a: Diagnostic, b: Diagnostic)
    decreases a
  {
    EqualHead(a, b) && EqualRelated(a.related, b.related)
  }

  // A total preorder: antisymmetric and transitive, one comparison after the other.

  lemma ThenTransitive(ab: int, bc: int, ac: int, ab': int, bc': int, ac': int)
    requires Transitive(ab, bc, ac)
    requires ab == 0 && bc == 0 ==> Transitive(ab', bc', ac')
    ensures Transitive(Then(ab, ab'), Then(bc, bc'), Then(ac, ac'))
  {}

  lemma {:induction false} ChainSizeIsOrder(a: seq<Diagnostic>, b: seq<Diagnostic>, c: seq<Diagnostic>)
    ensures CompareChainSize(a, b) == -CompareChainSize(b, a)
    ensures Transitive(CompareChainSize(a, b), CompareChainSize(b, c), CompareChainSize(a, c))
    decreases a
  {
    if |a| == |b| && a != [] {
      var d := if |c| == |b| then c else b;
      ChainSizeIsOrder(a[0].chain, b[0].chain, d[0].chain);
      ChainSizeIsOrder(a[1..], b[1..], d[1..]);
    }
  }

  lemma {:induction false} ChainContentIsOrder(a: seq<Diagnostic>, b: seq<Diagnostic>, c: seq<Diagnostic>)
    requires CompareChainSize(a, b) == 0 && CompareChainSize(b, a) == 0
    requires CompareChainSize(b, c) == 0 && CompareChainSize(a, c) == 0
    ensures CompareChainContent(a, b) == -CompareChainContent(b, a)
    ensures Transitive(CompareChainContent(a, b), CompareChainContent(b, c), CompareChainContent(a, c))
    decreases a
  {
    if a != [] {
      CompareListsAntisymmetric(a[0].args, b[0].args);
      CompareListsTransitive(a[0].args, b[0].args, c[0].args);
      ChainContentIsOrder(a[0].chain, b[0].chain, c[0].chain);
      ChainContentIsOrder(a[1..], b[1..], c[1..]);
      ThenTransitive(
        CompareChainContent(a[0].chain, b[0].chain), CompareChainContent(b[0].chain, c[0].chain),
        CompareChainContent(a[0].chain, c[0].chain),
        CompareChainContent(a[1..], b[1..]), CompareChainContent(b[1..], c[1..]), CompareChainContent(a[1..], c[1..]));
    }
  }

  lemma ChainsAreOrdered(a: seq<Diagnostic>, b: seq<Diagnostic>, c: seq<Diagnostic>)
    ensures CompareChains(a, b) == -CompareChains(b, a)
    ensures Transitive(CompareChains(a, b), CompareChains(b, c), CompareChains(a, c))
  {
    ChainSizeIsOrder(a, b, c);
    if CompareChainSize(a, b) == 0 {
      ChainSizeIsOrder(b, a, b);
      ChainContentIsOrder(a, b, b);
      if CompareChainSize(b, c) == 0 {
        ChainContentIsOrder(a, b, c);
      }
    }
  }

  lemma LocationIsOrder(a: Diagnostic, b: Diagnostic, c: Diagnostic)
    ensures CompareLocation(a, b) == -CompareLocation(b, a)
    ensures Transitive(CompareLocation(a, b), CompareLocation(b, c), CompareLocation(a, c))
  {
    CompareAntisymmetric(a.Path(), b.Path());
    CompareTransitive(a.Path(), b.Path(), c.Path());
  }

  lemma MessageIsOrder(a: Diagnostic, b: Diagnostic, c: Diagnostic)
    ensures CompareMessage(a, b) == -CompareMessage(b, a)
    ensures Transitive(CompareMessage(a, b), CompareMessage(b, c), CompareMessage(a, c))
  {
    CompareAntisymmetric(a.source, b.source);
    CompareAntisymmetric(a.Identity(), b.Identity());
    CompareListsAntisymmetric(a.args, b.args);
    CompareTransitive(a.source, b.source, c.source);
    CompareTransitive(a.Identity(), b.Identity(), c.Identity());
    CompareListsTransitive(a.args, b.args, c.args);
  }

  lemma HeadIsOrder(a: Diagnostic, b: Diagnostic, c: Diagnostic)
    ensures CompareHead(a, b) == -CompareHead(b, a)
    ensures Transitive(CompareHead(a, b), CompareHead(b, c), CompareHead(a, c))
  {
    LocationIsOrder(a, b, c);
    MessageIsOrder(a, b, c);
    ChainsAreOrdered(a.chain, b.chain, c.chain);
    ThenTransitive(CompareLocation(a, b), CompareLocation(b, c), CompareLocation(a, c),
                   CompareMessage(a, b), CompareMessage(b, c), CompareMessage(a, c));
  }

  lemma {:induction false} RelatedIsOrder(a: seq<Diagnostic>, b: seq<Diagnostic>, c: seq<Diagnostic>)
    ensures CompareRelated(a, b) == -CompareRelated(b, a)
    ensures Transitive(CompareRelated(a, b), CompareRelated(b, c), CompareRelated(a, c))
    decreases a
  {
    if |a| == |b| && a != [] {
      var d := if |c| == |b| then c else b;
      DiagnosticsAreOrdered(a[0], b[0], d[0]);
      RelatedIsOrder(a[1..], b[1..], d[1..]);
    }
  }

  /** The comparator is a total preorder over arbitrarily nested chains and related information. */
  lemma {:induction false} DiagnosticsAreOrdered(a: Diagnostic, b: Diagnostic, c: Diagnostic)
    ensures CompareDiagnostics(a, b) == -CompareDiagnostics(b, a)
    ensures Transitive(CompareDiagnostics(a, b), CompareDiagnostics(b, c), CompareDiagnostics(a, c))
    decreases a
  {
    HeadIsOrder(a, b, c);
    RelatedIsOrder(a.related, b.related, c.related);
  }

  // Equality against comparison.

  /** The codes inside message chains, which the comparator does not look at. */
  datatype ChainCode = ChainCode(code: int, chain: seq<ChainCode>)

  datatype Codes = Codes(chain: seq<ChainCode>, related: seq<Codes>)

  function ChainCodes(chain: seq<Diagnostic>): seq<ChainCode> {
    if chain == [] then []
    else [ChainCode(chain[0].code, ChainCodes(chain[0].chain))] + ChainCodes(chain[1..])
  }

  function RelatedCodes(related: seq<Diagnostic>): seq<Codes> {
    if related == [] then [] else [CodesOf(related[0])] + RelatedCodes(related[1..])
  }

  function CodesOf(d: Diagnostic): Codes {
    Codes(ChainCodes(d.chain), RelatedCodes(d.related))
  }

  lemma {:induction false} ListsAreEqual(a: seq<string>, b: seq<string>)
    ensures CompareLists(a, b) == 0 <==> a == b
  {
    if a != [] && b != [] {
      CompareIsEquality(a[0], b[0]);
      ListsAreEqual(a[1..], b[1..]);
      assert a == [a[0]] + a[1..] && b == [b[0]] + b[1..];
    }
  }

  lemma {:induction false} ChainsAreEqual(a: seq<Diagnostic>, b: seq<Diagnostic>)
    ensures EqualChains(a, b) <==>
            CompareChainSize(a, b) == 0 && CompareChainContent(a, b) == 0 && ChainCodes(a) == ChainCodes(b)
    decreases a
  {
    if |a| == |b| && a != [] {
      ListsAreEqual(a[0].args, b[0].args);
      ChainsAreEqual(a[0].chain, b[0].chain);
      ChainsAreEqual(a[1..], b[1..]);
      assert ChainCodes(a)[0].code == a[0].code && ChainCodes(a)[1..] == ChainCodes(a[1..]);
      assert ChainCodes(b)[0].code == b[0].code && ChainCodes(b)[1..] == ChainCodes(b[1..]);
    }
  }

  lemma HeadsAreEqual(a: Diagnostic, b: Diagnostic)
    ensures EqualHead(a, b) <==> CompareHead(a, b) == 0 && ChainCodes(a.chain) == ChainCodes(b.chain)
  {
    CompareIsEquality(a.Path(), b.Path());
    CompareIsEquality(a.source, b.source);
    CompareIsEquality(a.Identity(), b.Identity());
    ListsAreEqual(a.args, b.args);
    ChainsAreEqual(a.chain, b.chain);
  }

  lemma {:induction false} RelatedAreEqual(a: seq<Diagnostic>, b: seq<Diagnostic>)
    ensures EqualRelated(a, b) <==> CompareRelated(a, b) == 0 && RelatedCodes(a) == RelatedCodes(b)
    decreases a
  {
    if |a| == |b| && a != [] {
      EqualMeansCompareZero(a[0], b[0]);
      RelatedAreEqual(a[1..], b[1..]);
      assert RelatedCodes(a)[0] == CodesOf(a[0]) && RelatedCodes(a)[1..] == RelatedCodes(a[1..]);
      assert RelatedCodes(b)[0] == CodesOf(b[0]) && RelatedCodes(b)[1..] == RelatedCodes(b[1..]);
    }
  }

  /** Equal diagnostics compare as 0; the other way round only when the codes inside the chains agree too. */
  lemma {:induction false} EqualMeansCompareZero(a: Diagnostic, b: Diagnostic)
    ensures EqualDiagnostics(a, b) <==> CompareDiagnostics(a, b) == 0 && CodesOf(a) == CodesOf(b)
    decreases a
  {
    HeadsAreEqual(a, b);
    RelatedAreEqual(a.related, b.related);
  }

  function Plain(code: int, chain: seq<Diagnostic>): Diagnostic {
    Diagnostic(None, 0, 0, code, 0, "", None, "", "", [], chain, [])
  }

  /** Two diagnostics that differ only in the code of a chained message compare as 0 but are not equal. */
  lemma ChainCodesAreNotCompared()
    ensures var a, b := Plain(1, [Plain(2, [])]), Plain(1, [Plain(3, [])]);
            CompareDiagnostics(a, b) == 0 && !EqualDiagnostics(a, b)
  {
    var a, b := Plain(1, [Plain(2, [])]), Plain(1, [Plain(3, [])]);
    CompareIsEquality("", "");
    assert CompareChainContent(a.chain, b.chain) == 0;
  }

  /** With EqualMeansCompareZero: the shortcut for one pointer in both functions changes nothing. */
  lemma CompareIsReflexive(a: Diagnostic)
    ensures CompareDiagnostics(a, a) == 0
  {
    DiagnosticsAreOrdered(a, a, a);
  }

  lemma EqualIsSymmetric(a: Diagnostic, b: Diagnostic)
    ensures EqualDiagnostics(a, b) <==> EqualDiagnostics(b, a)
  {
    EqualMeansCompareZero(a, b);
    EqualMeansCompareZero(b, a);
    DiagnosticsAreOrdered(a, b, b);
  }
}
