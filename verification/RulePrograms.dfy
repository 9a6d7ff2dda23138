/** The preparation of a rule program for evaluation (engine/program.go). */
module RulePrograms {
  // The check for reserved predicates, the rewriting of negated globs, and the slice of the prelude.

  import opened Basics
  import opened Graphs
  import opened Datalog

  datatype Decl = Decl(symbol: string, isPackage: bool, extensional: bool)

  datatype SourceUnit = SourceUnit(decls: seq<Decl>, clauses: Program)

  // ------------------------------------------------------------------ reserved predicates

  datatype Rejection =
    | RedeclaresBase(symbol: string)
    | RedeclaresPrelude(symbol: string)
    | RedefinesBase(symbol: string)
    | RedefinesPrelude(symbol: string)
    | ExtensionalClause(symbol: string)

  ghost predicate Declares(unit: SourceUnit, symbol: string) {
    exists decl <- unit.decls :: !decl.isPackage && decl.symbol == symbol
  }

  ghost predicate DeclaresExtensional(unit: SourceUnit, symbol: string) {
    exists decl <- unit.decls :: !decl.isPackage && decl.extensional && decl.symbol == symbol
  }

  /** A predicate that rule programs must not declare or define. */
  ghost predicate Reserved(prelude: SourceUnit, schema: set<string>, symbol: string) {
    symbol in schema || Declares(prelude, symbol)
  }

  ghost predicate Accepted(unit: SourceUnit, prelude: SourceUnit, schema: set<string>) {
    && (forall symbol :: Declares(unit, symbol) ==> !Reserved(prelude, schema, symbol))
    && (forall c <- unit.clauses :: !Reserved(prelude, schema, c.head.pred) && !DeclaresExtensional(unit, c.head.pred))
  }

  /** Rejects a rule program that declares or defines a reserved predicate. */
  method CheckReservedPredicates(unit: SourceUnit, prelude: SourceUnit, schema: set<string>)
    returns (rejection: Option<Rejection>)
    ensures rejection.None? <==> Accepted(unit, prelude, schema)
  {
    var preludeSymbols: set<string> := {};
    for i := 0 to |prelude.decls|
      invariant forall s :: s in preludeSymbols <==>
                  exists j :: 0 <= j < i && !prelude.decls[j].isPackage && prelude.decls[j].symbol == s
    {
      if !prelude.decls[i].isPackage {
        preludeSymbols := preludeSymbols + {prelude.decls[i].symbol};
      }
    }
    assert forall s :: s in preludeSymbols <==> Declares(prelude, s) by { DeclaresAt(prelude); }
    var extensional: set<string> := {};
    for i := 0 to |unit.decls|
      invariant forall j | 0 <= j < i && !unit.decls[j].isPackage ::
                  unit.decls[j].symbol !in schema && unit.decls[j].symbol !in preludeSymbols
      invariant forall s :: s in extensional <==>
                  exists j ::
                    0 <= j < i && !unit.decls[j].isPackage && unit.decls[j].extensional && unit.decls[j].symbol == s
    {
      var decl := unit.decls[i];
      if !decl.isPackage {
        if decl.symbol in preludeSymbols {
          assert Declares(unit, decl.symbol);
          return Some(RedeclaresPrelude(decl.symbol));
        }
        if decl.symbol in schema {
          assert Declares(unit, decl.symbol);
          return Some(RedeclaresBase(decl.symbol));
        }
        if decl.extensional {
          extensional := extensional + {decl.symbol};
        }
      }
    }
    assert forall s :: s in extensional <==> DeclaresExtensional(unit, s) by { DeclaresExtensionalAt(unit); }
    for i := 0 to |unit.clauses|
      invariant forall j | 0 <= j < i ::
                  !Reserved(prelude, schema, unit.clauses[j].head.pred) && unit.clauses[j].head.pred !in extensional
    {
      var symbol := unit.clauses[i].head.pred;
      if symbol in preludeSymbols {
        assert unit.clauses[i] in unit.clauses;
        return Some(RedefinesPrelude(symbol));
      }
      if symbol in schema {
        assert unit.clauses[i] in unit.clauses;
        return Some(RedefinesBase(symbol));
      }
      if symbol in extensional {
        assert unit.clauses[i] in unit.clauses;
        return Some(ExtensionalClause(symbol));
      }
    }
    rejection := None;
  }

  lemma DeclaresAt(unit: SourceUnit)
    ensures forall s :: Declares(unit, s) <==>
              exists j :: 0 <= j < |unit.decls| && !unit.decls[j].isPackage && unit.decls[j].symbol == s
  {
  }

  lemma DeclaresExtensionalAt(unit: SourceUnit)
    ensures forall s :: DeclaresExtensional(unit, s) <==>
              exists j ::
                && 0 <= j < |unit.decls| && !unit.decls[j].isPackage && unit.decls[j].extensional
                && unit.decls[j].symbol == s
  {
  }

  // ------------------------------------------------------------------- the prelude slice

  /** The predicates that the premises of a clause read. */
  function Reads(c: Clause): set<string> {
    set premise <- c.premises | premise.Pos? || premise.Neg? :: premise.atom.pred
  }

  /** The predicates that the clauses of a predicate read. */
  function ReadsOf(p: Program, symbol: string): set<string> {
    set c <- p, s <- Reads(c) | c.head.pred == symbol :: s
  }

  /** What a rule program reads directly: its roots and the premises of its clauses. */
  function DirectReads(unit: SourceUnit, roots: seq<string>): set<string> {
    Elems(roots) + set c <- unit.clauses, s <- Reads(c) :: s
  }

  /** A set of predicates that has all premises of its prelude clauses. */
  ghost predicate ClosedUnder(p: Program, symbols: set<string>) {
    forall s <- symbols :: ReadsOf(p, s) <= symbols
  }

  /** The symbols of the premises that are atoms, in order. */
  function PremiseSymbols(premises: seq<Premise>): seq<string> {
    if premises == [] then []
    else
      var premise := premises[0];
      (if premise.Pos? || premise.Neg? then [premise.atom.pred] else []) + PremiseSymbols(premises[1..])
  }

  lemma {:induction false} PremiseSymbolsAreReads(c: Clause)
    ensures Elems(PremiseSymbols(c.premises)) == Reads(c)
    decreases |c.premises|
  {
    if c.premises != [] {
      var rest := c.(premises := c.premises[1..]);
      PremiseSymbolsAreReads(rest);
      assert c.premises == [c.premises[0]] + rest.premises;
      var head := (if c.premises[0].Pos? || c.premises[0].Neg? then [c.premises[0].atom.pred] else []);
      forall s
        ensures s in PremiseSymbols(c.premises) <==> s in Reads(c)
      {
        assert s in Reads(rest) <==> s in PremiseSymbols(rest.premises);
        assert s in Reads(c) <==> s in head || s in Reads(rest);
      }
    }
  }

  /** The clauses with a head in `symbols`, in order. */
  function ClausesFor(p: Program, symbols: set<string>): Program {
    if p == [] then []
    else ClausesFor(p[..|p| - 1], symbols) + if p[|p| - 1].head.pred in symbols then [p[|p| - 1]] else []
  }

  lemma {:induction false} ClausesForElems(p: Program, symbols: set<string>, c: Clause)
    ensures c in ClausesFor(p, symbols) <==> c in p && c.head.pred in symbols
  {
    if p != [] {
      ClausesForElems(p[..|p| - 1], symbols, c);
      assert p == p[..|p| - 1] + [p[|p| - 1]];
    }
  }

  /** The premises of the clauses of one predicate. */
  method PremisesFor(p: Program, symbol: string) returns (symbols: seq<string>)
    ensures Elems(symbols) == ReadsOf(p, symbol)
  {
    symbols := [];
    for i := 0 to |p|
      invariant Elems(symbols) == ReadsOf(p[..i], symbol)
    {
      assert p[..i + 1] == p[..i] + [p[i]];
      if p[i].head.pred == symbol {
        PremiseSymbolsAreReads(p[i]);
        assert ReadsOf(p[..i + 1], symbol) == ReadsOf(p[..i], symbol) + Reads(p[i]);
        ElemsConcat(symbols, PremiseSymbols(p[i].premises));
        symbols := symbols + PremiseSymbols(p[i].premises);
      } else {
        assert ReadsOf(p[..i + 1], symbol) == ReadsOf(p[..i], symbol);
      }
    }
    assert p[..|p|] == p;
  }

  /** `needed` is the least set that has the direct reads and is closed under the prelude. */
  ghost predicate IsLeastNeeded(p: Program, direct: set<string>, needed: set<string>) {
    && direct <= needed && ClosedUnder(p, needed)
    && forall symbols: set<string> :: direct <= symbols && ClosedUnder(p, symbols) ==> needed <= symbols
  }

  /** The state of the worklist: what is needed is closed except for what is pending, and every
      closed set has all of it. */
  ghost predicate WorklistState(p: Program, direct: set<string>, needed: set<string>, pending: seq<string>) {
    && direct <= needed + Elems(pending)
    && (forall s <- needed :: ReadsOf(p, s) <= needed + Elems(pending))
    && forall symbols: set<string> ::
         direct <= symbols && ClosedUnder(p, symbols) ==> needed + Elems(pending) <= symbols
  }

  function AllSymbols(p: Program): set<string> {
    set c <- p, s <- Reads(c) :: s
  }

  /** Keeps the prelude clauses that the rule program depends on. */
  method PreludeFor(prelude: SourceUnit, unit: SourceUnit, roots: seq<string>)
    returns (slice: SourceUnit, needed: set<string>)
    ensures IsLeastNeeded(prelude.clauses, DirectReads(unit, roots), needed)
    ensures slice == SourceUnit(prelude.decls, ClausesFor(prelude.clauses, needed))
  {
    var pending := PendingOf(unit, roots);
    needed := Worklist(prelude.clauses, DirectReads(unit, roots), pending);
    var clauses: Program := [];
    for i := 0 to |prelude.clauses|
      invariant clauses == ClausesFor(prelude.clauses[..i], needed)
    {
      assert prelude.clauses[..i + 1][..i] == prelude.clauses[..i];
      if prelude.clauses[i].head.pred in needed {
        clauses := clauses + [prelude.clauses[i]];
      }
    }
    assert prelude.clauses[..|prelude.clauses|] == prelude.clauses;
    slice := SourceUnit(prelude.decls, clauses);
  }

  method PendingOf(unit: SourceUnit, roots: seq<string>) returns (pending: seq<string>)
    ensures Elems(pending) == DirectReads(unit, roots)
  {
    pending := roots;
    for i := 0 to |unit.clauses|
      invariant Elems(pending) == DirectReads(SourceUnit([], unit.clauses[..i]), roots)
    {
      assert unit.clauses[..i + 1] == unit.clauses[..i] + [unit.clauses[i]];
      PremiseSymbolsAreReads(unit.clauses[i]);
      ElemsConcat(pending, PremiseSymbols(unit.clauses[i].premises));
      pending := pending + PremiseSymbols(unit.clauses[i].premises);
    }
    assert unit.clauses[..|unit.clauses|] == unit.clauses;
  }

  /** The loop over the pending symbols, last in first out. */
  method Worklist(p: Program, ghost direct: set<string>, start: seq<string>) returns (needed: set<string>)
    requires Elems(start) == direct
    ensures IsLeastNeeded(p, direct, needed)
  {
    needed := {};
    var pending := start;
    ghost var all := AllSymbols(p) + direct;
    while pending != []
      invariant WorklistState(p, direct, needed, pending)
      invariant needed <= all && Elems(pending) <= all
      decreases all - needed, |pending|
    {
      var symbol, rest := pending[|pending| - 1], pending[..|pending| - 1];
      assert pending == rest + [symbol];
      if symbol in needed {
        WorklistSkip(p, direct, needed, rest, symbol);
        pending := rest;
      } else {
        var premises := PremisesFor(p, symbol);
        WorklistTake(p, direct, needed, rest, symbol, premises);
        assert symbol in all && ReadsOf(p, symbol) <= AllSymbols(p);
        needed := needed + {symbol};
        pending := rest + premises;
      }
    }
  }

  lemma WorklistSkip(p: Program, direct: set<string>, needed: set<string>, rest: seq<string>, symbol: string)
    requires WorklistState(p, direct, needed, rest + [symbol]) && symbol in needed
    ensures WorklistState(p, direct, needed, rest)
    ensures Elems(rest) <= Elems(rest + [symbol])
  {
    assert needed + Elems(rest + [symbol]) == needed + Elems(rest);
  }

  lemma WorklistTake(p: Program, direct: set<string>, needed: set<string>, rest: seq<string>, symbol: string,
                     premises: seq<string>)
    requires WorklistState(p, direct, needed, rest + [symbol])
    requires Elems(premises) == ReadsOf(p, symbol)
    ensures WorklistState(p, direct, needed + {symbol}, rest + premises)
    ensures Elems(rest + premises) == Elems(rest) + ReadsOf(p, symbol)
    ensures symbol in Elems(rest + [symbol]) && Elems(rest) <= Elems(rest + [symbol])
  {
    ElemsConcat(rest, premises);
    ElemsConcat(rest, [symbol]);
    assert symbol in Elems([symbol]);
    forall symbols: set<string> | direct <= symbols && ClosedUnder(p, symbols)
      ensures needed + {symbol} + Elems(rest + premises) <= symbols
    {
      assert symbol in symbols;
    }
  }

  // ---------------------------------------------------------- the slice keeps the model

  function HeadSymbols(p: Program): set<string> {
    set c <- p :: c.head.pred
  }

  /** Every fact of a root, of a predicate that the program reads directly or through the prelude,
      and of a predicate of the rule program itself, holds with the sliced prelude exactly when it
      holds with the full prelude; each program may be stratified in its own way. */
  lemma SliceKeepsModel(prelude: SourceUnit, unit: SourceUnit, schema: set<string>, roots: seq<string>,
                        needed: set<string>, base: iset<Fact>, sigma: Strata, tau: Strata, f: Fact)
    requires Accepted(unit, prelude, schema)
    requires forall c <- prelude.clauses :: Reserved(prelude, schema, c.head.pred)
    requires IsLeastNeeded(prelude.clauses, DirectReads(unit, roots), needed)
    requires Stratifies(sigma, prelude.clauses + unit.clauses)
    requires Stratifies(tau, ClausesFor(prelude.clauses, needed) + unit.clauses)
    requires f.pred in needed + HeadSymbols(unit.clauses)
    ensures Holds(prelude.clauses + unit.clauses, base, sigma, f)
            <==> Holds(ClausesFor(prelude.clauses, needed) + unit.clauses, base, tau, f)
  {
    var p, q := prelude.clauses + unit.clauses, ClausesFor(prelude.clauses, needed) + unit.clauses;
    var keep := needed + HeadSymbols(unit.clauses);
    forall c: Clause {
      ClausesForElems(prelude.clauses, needed, c);
    }
    assert IsSlice(p, q, keep) by {
      forall c: Clause | c.head.pred in keep && (c in p || c in q)
        ensures c in p && c in q
        ensures forall premise <- c.premises :: premise.Pos? || premise.Neg? ==> premise.atom.pred in keep
      {
        SlicedClause(prelude, unit, schema, roots, needed, c);
      }
    }
    SliceHolds(p, q, keep, base, sigma, tau, f);
  }

  lemma SlicedClause(prelude: SourceUnit, unit: SourceUnit, schema: set<string>, roots: seq<string>,
                     needed: set<string>, c: Clause)
    requires Accepted(unit, prelude, schema)
    requires forall c <- prelude.clauses :: Reserved(prelude, schema, c.head.pred)
    requires IsLeastNeeded(prelude.clauses, DirectReads(unit, roots), needed)
    requires c.head.pred in needed + HeadSymbols(unit.clauses) && c in prelude.clauses + unit.clauses
    ensures c in unit.clauses || (c in prelude.clauses && c.head.pred in needed)
    ensures forall premise <- c.premises :: premise.Pos? || premise.Neg? ==> premise.atom.pred in needed
  {
    forall premise | premise in c.premises && (premise.Pos? || premise.Neg?)
      ensures premise.atom.pred in needed
    {
      assert premise.atom.pred in Reads(c);
      if c in unit.clauses {
        assert premise.atom.pred in DirectReads(unit, roots);
      } else {
        assert premise.atom.pred in ReadsOf(prelude.clauses, c.head.pred);
      }
    }
  }

  // ------------------------------------------------------------------------ negated globs

  const GLOB := "glob"
  const NOT_GLOB := "lintai:not_glob"
  const GLOB_SYM := PredicateSym(GLOB, 2)
  const NOT_GLOB_SYM := PredicateSym(NOT_GLOB, 2)
  const NOT_GLOB_DECL := Decl(NOT_GLOB, false, false)

  datatype QueryResult = Answer(holds: bool) | QueryError(pattern: Constant)

  /** The external predicate. `matches` is the matcher: no result for a malformed pattern. */
  function ExecuteQuery(negated: bool, path: Constant, pattern: Constant,
                        matches: (string, string) -> Option<bool>): QueryResult {
    if !path.StringConstant? then Answer(negated)
    else if !pattern.StringConstant? then QueryError(pattern)
    else
      var matched := matches(pattern.text, path.text);
      if matched.None? then QueryError(pattern) else Answer(matched.value != negated)
  }

  /** The base facts answer the glob queries. A query that is an error stops the evaluation, so
      the facts may answer it either way, but the two predicates stay opposite. */
  ghost predicate AnswersGlobs(base: iset<Fact>, matches: (string, string) -> Option<bool>) {
    forall path, pattern: Constant {:trigger Fact(GLOB, [path, pattern])} {:trigger Fact(NOT_GLOB, [path, pattern])} ::
      var plain, negated := ExecuteQuery(false, path, pattern, matches), ExecuteQuery(true, path, pattern, matches);
      && (plain.Answer? ==> (Fact(GLOB, [path, pattern]) in base <==> plain.holds))
      && (negated.Answer? ==> (Fact(NOT_GLOB, [path, pattern]) in base <==> negated.holds))
      && (plain.QueryError? && negated.QueryError? ==>
            (Fact(GLOB, [path, pattern]) in base <==> Fact(NOT_GLOB, [path, pattern]) !in base))
  }

  /** Such base facts exist for every matcher. */
  lemma GlobAnswersExist(matches: (string, string) -> Option<bool>)
    ensures exists base: iset<Fact> :: AnswersGlobs(base, matches)
  {
    var base := iset f: Fact |
      && |f.args| == 2
      && (f.pred == GLOB || f.pred == NOT_GLOB)
      && match ExecuteQuery(f.pred == NOT_GLOB, f.args[0], f.args[1], matches)
         case Answer(holds) => holds
         case QueryError(_) => f.pred == GLOB;
    assert AnswersGlobs(base, matches);
  }

  function RewritePremise(premise: Premise): Premise {
    if premise.Neg? && premise.atom.Sym() == GLOB_SYM
    then Pos(Atom(NOT_GLOB, premise.atom.args))
    else premise
  }

  function RewriteClause(c: Clause): Clause {
    c.(premises := seq(|c.premises|, i requires 0 <= i < |c.premises| => RewritePremise(c.premises[i])))
  }

  function RewriteProgram(p: Program): Program {
    seq(|p|, i requires 0 <= i < |p| => RewriteClause(p[i]))
  }

  /** Replaces every negated glob, and declares the replacement when there was one. */
  method RewriteNegatedGlobs(unit: SourceUnit) returns (result: SourceUnit)
    ensures result.clauses == RewriteProgram(unit.clauses)
    ensures result.decls == if result.clauses == unit.clauses then unit.decls else unit.decls + [NOT_GLOB_DECL]
  {
    var clauses, rewritten := unit.clauses, false;
    for ci := 0 to |clauses|
      invariant |clauses| == |unit.clauses| && clauses[ci..] == unit.clauses[ci..]
      invariant forall i | 0 <= i < ci :: clauses[i] == RewriteClause(unit.clauses[i])
      invariant rewritten <==> exists i :: 0 <= i < ci && clauses[i] != unit.clauses[i]
    {
      var premises, here := RewritePremises(unit.clauses[ci].premises);
      assert premises == RewriteClause(unit.clauses[ci]).premises;
      clauses := clauses[ci := unit.clauses[ci].(premises := premises)];
      rewritten := rewritten || here;
    }
    result := SourceUnit(if rewritten then unit.decls + [NOT_GLOB_DECL] else unit.decls, clauses);
  }

  method RewritePremises(premises: seq<Premise>) returns (result: seq<Premise>, rewritten: bool)
    ensures |result| == |premises| && forall i | 0 <= i < |premises| :: result[i] == RewritePremise(premises[i])
    ensures rewritten <==> result != premises
  {
    result, rewritten := premises, false;
    for pi := 0 to |premises|
      invariant |result| == |premises| && result[pi..] == premises[pi..]
      invariant forall i | 0 <= i < pi :: result[i] == RewritePremise(premises[i])
      invariant rewritten <==> exists i :: 0 <= i < pi && result[i] != premises[i]
    {
      var premise := premises[pi];
      if premise.Neg? && premise.atom.Sym() == GLOB_SYM {
        result := result[pi := Pos(Atom(NOT_GLOB, premise.atom.args))];
        rewritten := true;
      }
    }
  }

  /** No clause derives a glob fact, and the original program does not use the replacement. */
  ghost predicate GlobsAreExternal(p: Program) {
    forall c <- p ::
      && c.head.Sym() != GLOB_SYM && c.head.Sym() != NOT_GLOB_SYM
      && forall premise <- c.premises :: premise.Pos? || premise.Neg? ==> premise.atom.Sym() != NOT_GLOB_SYM
  }

  /** An external fact holds exactly when it is a base fact. */
  lemma {:induction false} ExternalHolds(p: Program, base: iset<Fact>, sigma: Strata, k: nat, n: nat, f: Fact)
    requires forall c <- p :: c.head.Sym() != f.Sym()
    requires Derived(p, base, sigma, k, n, f)
    ensures f in base
    decreases k, n
  {
    if n == 0 && k > 0 {
      var m := RoundOf(p, base, sigma, k - 1, f);
      ExternalHolds(p, base, sigma, k - 1, m, f);
    } else if n > 0 {
      if !Derived(p, base, sigma, k, n - 1, f) {
        var c, a := HowDerived(p, base, sigma, k, n, f);
      }
      ExternalHolds(p, base, sigma, k, n - 1, f);
    }
  }

  lemma BaseIsDerived(p: Program, base: iset<Fact>, sigma: Strata, k: nat, n: nat, f: Fact)
    requires f in base
    ensures Derived(p, base, sigma, k, n, f)
  {
    assert Derived(p, base, sigma, 0, 0, f);
    MoreStrata(p, base, sigma, 0, k, f);
    if k == 0 {
      MoreRounds(p, base, sigma, 0, 0, n, f);
    } else {
      MoreStrata(p, base, sigma, 0, k - 1, f);
      assert Derived(p, base, sigma, k, 0, f);
      MoreRounds(p, base, sigma, k, 0, n, f);
    }
  }

  /** The premise and its replacement are true together. */
  lemma GlobPremise(p: Program, base: iset<Fact>, sigma: Strata, matches: (string, string) -> Option<bool>, k: nat,
                    n: nat, atom: Atom, a: Assignment)
    requires AnswersGlobs(base, matches) && GlobsAreExternal(p)
    requires atom.Sym() == GLOB_SYM
    ensures InStratum(p, base, sigma, k, Ground(atom, a)) <==> Ground(Atom(NOT_GLOB, atom.args), a) !in base
    ensures Derived(RewriteProgram(p), base, sigma, k, n, Ground(Atom(NOT_GLOB, atom.args), a))
            <==> Ground(Atom(NOT_GLOB, atom.args), a) in base
  {
    var path, pattern := Value(atom.args[0], a), Value(atom.args[1], a);
    assert Ground(atom, a) == Fact(GLOB, [path, pattern]);
    assert Ground(Atom(NOT_GLOB, atom.args), a) == Fact(NOT_GLOB, [path, pattern]);
    var f, g := Fact(GLOB, [path, pattern]), Fact(NOT_GLOB, [path, pattern]);
    assert f in base <==> g !in base;
    if InStratum(p, base, sigma, k, f) {
      var m := RoundOf(p, base, sigma, k, f);
      ExternalHolds(p, base, sigma, k, m, f);
    }
    if f in base { BaseIsDerived(p, base, sigma, k, n, f); }
    var q := RewriteProgram(p);
    if Derived(q, base, sigma, k, n, g) {
      ExternalHolds(q, base, sigma, k, n, g);
    }
    if g in base { BaseIsDerived(q, base, sigma, k, n, g); }
  }

  /** A premise is true after `n` rounds of stratum `k`. */
  ghost predicate IsTrue(p: Program, base: iset<Fact>, sigma: Strata, k: nat, n: nat, premise: Premise, a: Assignment) {
    && (premise.Pos? ==> Derived(p, base, sigma, k, n, Ground(premise.atom, a)))
    && (premise.Neg? ==> k > 0 && !InStratum(p, base, sigma, k - 1, Ground(premise.atom, a)))
    && Compares(premise, a)
  }

  /** What the two programs must agree on for a premise to have one meaning in both. */
  ghost predicate Agrees(p: Program, q: Program, base: iset<Fact>, sigma: Strata, k: nat, n: nat, f: Fact) {
    && (Derived(p, base, sigma, k, n, f) <==> Derived(q, base, sigma, k, n, f))
    && (k > 0 ==> (InStratum(p, base, sigma, k - 1, f) <==> InStratum(q, base, sigma, k - 1, f)))
  }

  lemma RewrittenPremise(p: Program, base: iset<Fact>, sigma: Strata, matches: (string, string) -> Option<bool>,
                         k: nat, n: nat, c: Clause, premise: Premise, a: Assignment)
    requires AnswersGlobs(base, matches) && GlobsAreExternal(p) && Stratifies(sigma, p)
    requires c in p && premise in c.premises && sigma(c.head.Sym()) == k
    requires (premise.Pos? || premise.Neg?) ==> Agrees(p, RewriteProgram(p), base, sigma, k, n, Ground(premise.atom, a))
    ensures IsTrue(p, base, sigma, k, n, premise, a) <==>
            IsTrue(RewriteProgram(p), base, sigma, k, n, RewritePremise(premise), a)
  {
    if premise.Neg? && premise.atom.Sym() == GLOB_SYM {
      GlobPremise(p, base, sigma, matches, k - 1, 0, premise.atom, a);
      GlobPremise(p, base, sigma, matches, k, n, premise.atom, a);
    }
  }

  lemma RewrittenClause(p: Program, base: iset<Fact>, sigma: Strata, matches: (string, string) -> Option<bool>, k: nat,
                        n: nat, c: Clause, a: Assignment, f: Fact)
    requires AnswersGlobs(base, matches) && GlobsAreExternal(p) && Stratifies(sigma, p) && c in p
    requires forall premise <- c.premises :: premise.Pos? || premise.Neg? ==>
               Agrees(p, RewriteProgram(p), base, sigma, k, n, Ground(premise.atom, a))
    ensures Fires(p, base, sigma, k, n, c, a, f) <==>
            Fires(RewriteProgram(p), base, sigma, k, n, RewriteClause(c), a, f)
  {
    var q, d := RewriteProgram(p), RewriteClause(c);
    var i :| 0 <= i < |p| && p[i] == c;
    assert q[i] == d;
    if sigma(c.head.Sym()) == k {
      forall j | 0 <= j < |c.premises|
        ensures IsTrue(p, base, sigma, k, n, c.premises[j], a) <==> IsTrue(q, base, sigma, k, n, d.premises[j], a)
      {
        RewrittenPremise(p, base, sigma, matches, k, n, c, c.premises[j], a);
      }
      assert Fires(p, base, sigma, k, n, c, a, f) <==>
             Ground(c.head, a) == f
             && forall j | 0 <= j < |c.premises| :: IsTrue(p, base, sigma, k, n, c.premises[j], a);
      assert Fires(q, base, sigma, k, n, d, a, f) <==>
             Ground(c.head, a) == f
             && forall j | 0 <= j < |d.premises| :: IsTrue(q, base, sigma, k, n, d.premises[j], a);
    }
  }

  /** The rewritten program derives the same facts in the same rounds. */
  lemma {:induction false} RewriteDerives(p: Program, base: iset<Fact>, sigma: Strata,
                                          matches: (string, string) -> Option<bool>, k: nat, n: nat, f: Fact)
    requires AnswersGlobs(base, matches) && GlobsAreExternal(p) && Stratifies(sigma, p)
    ensures Derived(p, base, sigma, k, n, f) <==> Derived(RewriteProgram(p), base, sigma, k, n, f)
    decreases k, 0, n
  {
    var q := RewriteProgram(p);
    if n == 0 {
      if k > 0 { RewriteSettles(p, base, sigma, matches, k - 1, f); }
    } else {
      var m: nat := n - 1;
      RewriteDerives(p, base, sigma, matches, k, m, f);
      forall c, a: Assignment | c in p
        ensures Fires(p, base, sigma, k, m, c, a, f) <==> Fires(q, base, sigma, k, m, RewriteClause(c), a, f)
      {
        forall premise | premise in c.premises && (premise.Pos? || premise.Neg?)
          ensures Agrees(p, q, base, sigma, k, m, Ground(premise.atom, a))
        {
          RewriteDerives(p, base, sigma, matches, k, m, Ground(premise.atom, a));
          if k > 0 { RewriteSettles(p, base, sigma, matches, k - 1, Ground(premise.atom, a)); }
        }
        RewrittenClause(p, base, sigma, matches, k, m, c, a, f);
      }
      SameFired(p, base, sigma, k, m, f);
    }
  }

  lemma SameFired(p: Program, base: iset<Fact>, sigma: Strata, k: nat, n: nat, f: Fact)
    requires forall c, a: Assignment :: c in p ==>
               (Fires(p, base, sigma, k, n, c, a, f) <==>
                Fires(RewriteProgram(p), base, sigma, k, n, RewriteClause(c), a, f))
    ensures Fired(p, base, sigma, k, n, f) <==> Fired(RewriteProgram(p), base, sigma, k, n, f)
  {
    var q := RewriteProgram(p);
    if Fired(p, base, sigma, k, n, f) {
      var c, a := HowFired(p, base, sigma, k, n, f);
      assert Fires(q, base, sigma, k, n, RewriteClause(c), a, f);
    }
    if Fired(q, base, sigma, k, n, f) {
      var d, a := HowFired(q, base, sigma, k, n, f);
      var i :| 0 <= i < |q| && q[i] == d;
      assert p[i] in p && d == RewriteClause(p[i]);
      assert Fires(p, base, sigma, k, n, p[i], a, f);
    }
  }

  lemma {:induction false} RewriteSettles(p: Program, base: iset<Fact>, sigma: Strata,
                                          matches: (string, string) -> Option<bool>, k: nat, f: Fact)
    requires AnswersGlobs(base, matches) && GlobsAreExternal(p) && Stratifies(sigma, p)
    ensures InStratum(p, base, sigma, k, f) <==> InStratum(RewriteProgram(p), base, sigma, k, f)
    decreases k, 1, 0
  {
    if InStratum(p, base, sigma, k, f) {
      var n := RoundOf(p, base, sigma, k, f);
      RewriteDerives(p, base, sigma, matches, k, n, f);
    }
    if InStratum(RewriteProgram(p), base, sigma, k, f) {
      var n := RoundOf(RewriteProgram(p), base, sigma, k, f);
      RewriteDerives(p, base, sigma, matches, k, n, f);
    }
  }

  /** A stratification that puts the replacement of negated globs at the bottom. */
  function Grounded(sigma: Strata): Strata {
    s => if s == NOT_GLOB_SYM then 0 else sigma(s)
  }

  /** It stratifies the program, which does not use the replacement, and the rewritten program. */
  lemma GroundedStratifies(p: Program, sigma: Strata)
    requires GlobsAreExternal(p) && Stratifies(sigma, p)
    ensures Stratifies(Grounded(sigma), p) && Stratifies(Grounded(sigma), RewriteProgram(p))
  {
    var q, grounded := RewriteProgram(p), Grounded(sigma);
    forall d, premise | d in q && premise in d.premises
      ensures premise.Pos? ==> grounded(premise.atom.Sym()) <= grounded(d.head.Sym())
      ensures premise.Neg? ==> grounded(premise.atom.Sym()) < grounded(d.head.Sym())
    {
      var i :| 0 <= i < |q| && q[i] == d;
      var j :| 0 <= j < |d.premises| && d.premises[j] == premise;
      assert p[i] in p && p[i].premises[j] in p[i].premises;
    }
  }

  /** Rewriting negated globs keeps the model, however the two programs are stratified. */
  lemma RewriteKeepsModel(p: Program, base: iset<Fact>, sigma: Strata, tau: Strata,
                          matches: (string, string) -> Option<bool>, f: Fact)
    requires AnswersGlobs(base, matches) && GlobsAreExternal(p)
    requires Stratifies(sigma, p) && Stratifies(tau, RewriteProgram(p))
    ensures Holds(p, base, sigma, f) <==> Holds(RewriteProgram(p), base, tau, f)
  {
    var q, grounded := RewriteProgram(p), Grounded(sigma);
    GroundedStratifies(p, sigma);
    StratificationIrrelevant(p, base, sigma, grounded, f);
    StratificationIrrelevant(q, base, grounded, tau, f);
    forall k: nat
      ensures InStratum(p, base, grounded, k, f) <==> InStratum(q, base, grounded, k, f)
    {
      RewriteSettles(p, base, grounded, matches, k, f);
    }
  }

  // ------------------------------------------------------------------- the whole preparation

  /** No premise is a negated glob. */
  predicate HasNoNegatedGlob(p: Program) {
    forall c <- p, premise <- c.premises :: RewritePremise(premise) == premise
  }

  lemma RewriteOfConcat(p: Program, q: Program)
    requires HasNoNegatedGlob(p)
    ensures RewriteProgram(p + q) == p + RewriteProgram(q)
  {
    forall i | 0 <= i < |p| ensures RewriteClause(p[i]) == p[i] {
      assert p[i] in p;
      assert RewriteClause(p[i]).premises == p[i].premises;
    }
  }

  /**
   * What is evaluated, the slice of the prelude for the rewritten rule program and that program, has the facts of the
   * full prelude and the program as it was written, for every predicate that the slice keeps or the program defines.
   */
  lemma PreparationKeepsModel(
    prelude: SourceUnit, unit: SourceUnit, schema: set<string>, roots: seq<string>, needed: set<string>,
    base: iset<Fact>, sigma: Strata, tau: Strata, matches: (string, string) -> Option<bool>, f: Fact)
    requires Accepted(unit, prelude, schema)
    requires forall c <- prelude.clauses :: Reserved(prelude, schema, c.head.pred)
    requires HasNoNegatedGlob(prelude.clauses) && GlobsAreExternal(prelude.clauses + unit.clauses)
    requires AnswersGlobs(base, matches)
    requires IsLeastNeeded(prelude.clauses, DirectReads(unit.(clauses := RewriteProgram(unit.clauses)), roots), needed)
    requires Stratifies(sigma, prelude.clauses + unit.clauses)
    requires Stratifies(tau, ClausesFor(prelude.clauses, needed) + RewriteProgram(unit.clauses))
    requires f.pred in needed + HeadSymbols(unit.clauses)
    ensures Holds(prelude.clauses + unit.clauses, base, sigma, f)
            <==> Holds(ClausesFor(prelude.clauses, needed) + RewriteProgram(unit.clauses), base, tau, f)
  {
    var rewritten := unit.(clauses := RewriteProgram(unit.clauses));
    var p, grounded := prelude.clauses + unit.clauses, Grounded(sigma);
    RewriteOfConcat(prelude.clauses, unit.clauses);
    GroundedStratifies(p, sigma);
    RewriteKeepsModel(p, base, sigma, grounded, matches, f);
    RewrittenIsAccepted(unit, prelude, schema);
    SliceKeepsModel(prelude, rewritten, schema, roots, needed, base, grounded, tau, f);
  }

  /** Rewriting keeps the heads. */
  lemma RewrittenHeads(p: Program, symbol: string)
    ensures symbol in HeadSymbols(RewriteProgram(p)) <==> symbol in HeadSymbols(p)
  {
    var q := RewriteProgram(p);
    if c :| c in p && c.head.pred == symbol {
      var i :| 0 <= i < |p| && p[i] == c;
      assert q[i] in q && q[i].head.pred == symbol;
    }
    if d :| d in q && d.head.pred == symbol {
      var i :| 0 <= i < |q| && q[i] == d;
      assert p[i] in p && p[i].head.pred == symbol;
    }
  }

  lemma RewrittenIsAccepted(unit: SourceUnit, prelude: SourceUnit, schema: set<string>)
    requires Accepted(unit, prelude, schema)
    ensures Accepted(unit.(clauses := RewriteProgram(unit.clauses)), prelude, schema)
    ensures HeadSymbols(RewriteProgram(unit.clauses)) == HeadSymbols(unit.clauses)
  {
    forall symbol ensures symbol in HeadSymbols(RewriteProgram(unit.clauses)) <==> symbol in HeadSymbols(unit.clauses) {
      RewrittenHeads(unit.clauses, symbol);
    }
    forall d | d in RewriteProgram(unit.clauses)
      ensures !Reserved(prelude, schema, d.head.pred) && !DeclaresExtensional(unit, d.head.pred)
    {
      assert d.head.pred in HeadSymbols(unit.clauses);
    }
    var rewritten := unit.(clauses := RewriteProgram(unit.clauses));
    assert forall s :: Declares(rewritten, s) == Declares(unit, s);
    assert forall s :: DeclaresExtensional(rewritten, s) == DeclaresExtensional(unit, s);
  }
}
