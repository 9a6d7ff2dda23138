/** Stratified Datalog: the meaning of the rule programs of engine/program.go. */
module Datalog {
  // A program is a set of clauses over a set of base facts. Its stratified model is built stratum
  // by stratum, each one as the least fixed point of its clauses, with negation read against the
  // strata below.

  datatype Constant = NameConstant(text: string) | StringConstant(text: string) | NumberConstant(value: int)

  datatype Term = Variable(name: string) | Literal(constant: Constant)

  /** A predicate: predicates of one name and different arities are different. */
  datatype PredicateSym = PredicateSym(symbol: string, arity: nat)

  datatype Atom = Atom(pred: string, args: seq<Term>) {
    function Sym(): PredicateSym {
      PredicateSym(pred, |args|)
    }
  }

  datatype Premise = Pos(atom: Atom) | Neg(atom: Atom) | Eq(left: Term, right: Term) | Ineq(left: Term, right: Term)

  datatype Clause = Clause(head: Atom, premises: seq<Premise>)

  datatype Fact = Fact(pred: string, args: seq<Constant>) {
    function Sym(): PredicateSym {
      PredicateSym(pred, |args|)
    }
  }

  type Program = seq<Clause>

  /** A variable assignment. */
  type Assignment = string -> Constant

  /** The stratum of each predicate. */
  type Strata = PredicateSym -> nat

  function Value(t: Term, a: Assignment): Constant {
    match t
    case Variable(name) => a(name)
    case Literal(constant) => constant
  }

  function Ground(atom: Atom, a: Assignment): Fact {
    Fact(atom.pred, seq(|atom.args|, i requires 0 <= i < |atom.args| => Value(atom.args[i], a)))
  }

  /** A comparison is true; other premises are not its concern. */
  predicate Compares(premise: Premise, a: Assignment) {
    && (premise.Eq? ==> Value(premise.left, a) == Value(premise.right, a))
    && (premise.Ineq? ==> Value(premise.left, a) != Value(premise.right, a))
  }

  /** No predicate depends on itself through negation. */
  ghost predicate Stratifies(sigma: Strata, p: Program) {
    forall c <- p, premise <- c.premises ::
      && (premise.Pos? ==> sigma(premise.atom.Sym()) <= sigma(c.head.Sym()))
      && (premise.Neg? ==> sigma(premise.atom.Sym()) < sigma(c.head.Sym()))
  }

  /** `f` is derived in at most `n` rounds of stratum `k`. */
  ghost predicate Derived(p: Program, base: iset<Fact>, sigma: Strata, k: nat, n: nat, f: Fact)
    decreases k, 0, n, 0
  {
    if n == 0 then
      if k == 0 then f in base else InStratum(p, base, sigma, k - 1, f)
    else
      || Derived(p, base, sigma, k, n - 1, f)
      || Fired(p, base, sigma, k, n - 1, f)
  }

  /** Some clause derives `f`. */
  ghost predicate Fired(p: Program, base: iset<Fact>, sigma: Strata, k: nat, n: nat, f: Fact)
    decreases k, 0, n, 2
  {
    exists c, a: Assignment :: Fires(p, base, sigma, k, n, c, a, f)
  }

  /** A clause of stratum `k` derives `f` from what `n` rounds have derived. */
  ghost predicate Fires(p: Program, base: iset<Fact>, sigma: Strata, k: nat, n: nat, c: Clause, a: Assignment, f: Fact)
    decreases k, 0, n, 1
  {
    && c in p && sigma(c.head.Sym()) == k && Ground(c.head, a) == f
    && forall premise <- c.premises ::
         && (premise.Pos? ==> Derived(p, base, sigma, k, n, Ground(premise.atom, a)))
         && (premise.Neg? ==> k > 0 && !InStratum(p, base, sigma, k - 1, Ground(premise.atom, a)))
         && Compares(premise, a)
  }

  /** `f` holds once stratum `k` is complete. */
  ghost predicate InStratum(p: Program, base: iset<Fact>, sigma: Strata, k: nat, f: Fact)
    decreases k, 1, 0, 0
  {
    exists n: nat :: Derived(p, base, sigma, k, n, f)
  }

  /** The stratified model. */
  ghost predicate Holds(p: Program, base: iset<Fact>, sigma: Strata, f: Fact) {
    exists k: nat :: InStratum(p, base, sigma, k, f)
  }

  /** A premise is true in the model. */
  ghost predicate HoldsPremise(p: Program, base: iset<Fact>, sigma: Strata, premise: Premise, a: Assignment) {
    && (premise.Pos? ==> Holds(p, base, sigma, Ground(premise.atom, a)))
    && (premise.Neg? ==> !Holds(p, base, sigma, Ground(premise.atom, a)))
    && Compares(premise, a)
  }

  // ------------------------------------------------------------------ how strata settle

  lemma {:induction false} MoreRounds(p: Program, base: iset<Fact>, sigma: Strata, k: nat, n: nat, n': nat, f: Fact)
    requires Derived(p, base, sigma, k, n, f) && n <= n'
    ensures Derived(p, base, sigma, k, n', f)
    decreases n' - n
  {
    if n < n' {
      MoreRounds(p, base, sigma, k, n, n' - 1, f);
    }
  }

  lemma {:induction false} MoreStrata(p: Program, base: iset<Fact>, sigma: Strata, k: nat, k': nat, f: Fact)
    requires InStratum(p, base, sigma, k, f) && k <= k'
    ensures InStratum(p, base, sigma, k', f)
    decreases k' - k
  {
    if k < k' {
      MoreStrata(p, base, sigma, k, k' - 1, f);
      assert Derived(p, base, sigma, k', 0, f);
    }
  }

  lemma HowFired(p: Program, base: iset<Fact>, sigma: Strata, k: nat, n: nat, f: Fact)
    returns (c: Clause, a: Assignment)
    requires Fired(p, base, sigma, k, n, f)
    ensures Fires(p, base, sigma, k, n, c, a, f)
  {
    c, a :| Fires(p, base, sigma, k, n, c, a, f);
  }

  lemma FiredInOwnStratum(p: Program, base: iset<Fact>, sigma: Strata, k: nat, n: nat, f: Fact)
    requires Fired(p, base, sigma, k, n, f)
    ensures sigma(f.Sym()) == k
  {
    var c, a := HowFired(p, base, sigma, k, n, f);
  }

  /** A fact is settled once the stratum of its predicate is complete. */
  lemma {:induction false} Settled(p: Program, base: iset<Fact>, sigma: Strata, k: nat, n: nat, j: nat, f: Fact)
    requires Derived(p, base, sigma, k, n, f) && sigma(f.Sym()) <= j
    ensures InStratum(p, base, sigma, j, f)
    decreases k, n
  {
    if k <= j {
      MoreStrata(p, base, sigma, k, j, f);
    } else if n > 0 {
      if Fired(p, base, sigma, k, n - 1, f) { FiredInOwnStratum(p, base, sigma, k, n - 1, f); }
      Settled(p, base, sigma, k, n - 1, j, f);
    } else {
      var m: nat :| Derived(p, base, sigma, k - 1, m, f);
      Settled(p, base, sigma, k - 1, m, j, f);
    }
  }

  lemma RoundOf(p: Program, base: iset<Fact>, sigma: Strata, k: nat, f: Fact) returns (n: nat)
    requires InStratum(p, base, sigma, k, f)
    ensures Derived(p, base, sigma, k, n, f)
  {
    n :| Derived(p, base, sigma, k, n, f);
  }

  lemma HoldsWhereSettled(p: Program, base: iset<Fact>, sigma: Strata, j: nat, f: Fact)
    requires sigma(f.Sym()) <= j
    ensures Holds(p, base, sigma, f) <==> InStratum(p, base, sigma, j, f)
  {
    if Holds(p, base, sigma, f) {
      var k: nat :| InStratum(p, base, sigma, k, f);
      var n := RoundOf(p, base, sigma, k, f);
      Settled(p, base, sigma, k, n, j, f);
    }
  }

  /** One round of a stratum is enough for all positive premises of a clause. */
  lemma {:induction false} CommonRound(p: Program, base: iset<Fact>, sigma: Strata, k: nat, premises: seq<Premise>,
                                       a: Assignment)
    returns (n: nat)
    requires forall premise <- premises :: premise.Pos? ==> InStratum(p, base, sigma, k, Ground(premise.atom, a))
    ensures forall premise <- premises :: premise.Pos? ==> Derived(p, base, sigma, k, n, Ground(premise.atom, a))
  {
    n := 0;
    for i := 0 to |premises|
      invariant forall premise <- premises[..i] ::
                  premise.Pos? ==> Derived(p, base, sigma, k, n, Ground(premise.atom, a))
    {
      var here := n;
      if premises[i].Pos? {
        var m := RoundOf(p, base, sigma, k, Ground(premises[i].atom, a));
        n := if m < n then n else m;
        MoreRounds(p, base, sigma, k, m, n, Ground(premises[i].atom, a));
      }
      forall premise | premise in premises[..i] && premise.Pos?
        ensures Derived(p, base, sigma, k, n, Ground(premise.atom, a))
      {
        MoreRounds(p, base, sigma, k, here, n, Ground(premise.atom, a));
      }
      assert premises[..i + 1] == premises[..i] + [premises[i]];
    }
    assert premises[..|premises|] == premises;
  }

  /** The model is closed under the clauses. */
  lemma ModelIsClosed(p: Program, base: iset<Fact>, sigma: Strata, c: Clause, a: Assignment)
    requires Stratifies(sigma, p) && c in p
    requires forall premise <- c.premises :: HoldsPremise(p, base, sigma, premise, a)
    ensures Holds(p, base, sigma, Ground(c.head, a))
  {
    var k := sigma(c.head.Sym());
    forall premise | premise in c.premises
      ensures premise.Pos? ==> InStratum(p, base, sigma, k, Ground(premise.atom, a))
      ensures premise.Neg? ==> k > 0 && !InStratum(p, base, sigma, k - 1, Ground(premise.atom, a))
    {
      if premise.Pos? { HoldsWhereSettled(p, base, sigma, k, Ground(premise.atom, a)); }
      if premise.Neg? { HoldsWhereSettled(p, base, sigma, k - 1, Ground(premise.atom, a)); }
    }
    var n := CommonRound(p, base, sigma, k, c.premises, a);
    assert Fires(p, base, sigma, k, n, c, a, Ground(c.head, a));
    assert Fired(p, base, sigma, k, n, Ground(c.head, a));
    assert Derived(p, base, sigma, k, n + 1, Ground(c.head, a));
    assert InStratum(p, base, sigma, k, Ground(c.head, a));
  }

  lemma {:induction false} BaseHolds(p: Program, base: iset<Fact>, sigma: Strata, f: Fact)
    requires f in base
    ensures Holds(p, base, sigma, f)
  {
    assert Derived(p, base, sigma, 0, 0, f);
    assert InStratum(p, base, sigma, 0, f);
  }

  // ------------------------------------------------ the model does not depend on the strata

  /** How a fact was derived: before, or by a clause. */
  lemma HowDerived(p: Program, base: iset<Fact>, sigma: Strata, k: nat, n: nat, f: Fact)
    returns (c: Clause, a: Assignment)
    requires n > 0 && Derived(p, base, sigma, k, n, f) && !Derived(p, base, sigma, k, n - 1, f)
    ensures Fires(p, base, sigma, k, n - 1, c, a, f)
  {
    c, a := HowFired(p, base, sigma, k, n - 1, f);
  }

  /** A fact that holds under one stratification holds under the other. */
  lemma {:induction false} HoldsForward(p: Program, base: iset<Fact>, sigma: Strata, tau: Strata, k: nat, n: nat,
                                        f: Fact)
    requires Stratifies(sigma, p) && Stratifies(tau, p)
    requires Derived(p, base, sigma, k, n, f)
    ensures Holds(p, base, tau, f)
    decreases k, 0, 0, n, 0
  {
    if n == 0 && k == 0 {
      BaseHolds(p, base, tau, f);
    } else if n == 0 {
      var m := RoundOf(p, base, sigma, k - 1, f);
      HoldsForward(p, base, sigma, tau, k - 1, m, f);
    } else if Derived(p, base, sigma, k, n - 1, f) {
      HoldsForward(p, base, sigma, tau, k, n - 1, f);
    } else {
      var c, a := HowDerived(p, base, sigma, k, n, f);
      forall premise | premise in c.premises
        ensures HoldsPremise(p, base, tau, premise, a)
      {
        ForwardPremise(p, base, sigma, tau, k, n - 1, c, a, f, premise);
      }
      ModelIsClosed(p, base, tau, c, a);
    }
  }

  lemma {:induction false} ForwardPremise(p: Program, base: iset<Fact>, sigma: Strata, tau: Strata, k: nat, n: nat,
                                          c: Clause, a: Assignment, f: Fact, premise: Premise)
    requires Stratifies(sigma, p) && Stratifies(tau, p)
    requires Fires(p, base, sigma, k, n, c, a, f) && premise in c.premises
    ensures HoldsPremise(p, base, tau, premise, a)
    decreases k, 0, 0, n, 1
  {
    if premise.Pos? {
      HoldsForward(p, base, sigma, tau, k, n, Ground(premise.atom, a));
    } else if premise.Neg? && Holds(p, base, tau, Ground(premise.atom, a)) {
      var k' :| InStratum(p, base, tau, k', Ground(premise.atom, a));
      var n' := RoundOf(p, base, tau, k', Ground(premise.atom, a));
      HoldsBackward(p, base, sigma, tau, k - 1, k', n', Ground(premise.atom, a));
    }
  }

  /** The converse, for the facts up to a stratum. */
  lemma {:induction false} HoldsBackward(p: Program, base: iset<Fact>, sigma: Strata, tau: Strata, k: nat, k': nat,
                                         n': nat, f: Fact)
    requires Stratifies(sigma, p) && Stratifies(tau, p)
    requires sigma(f.Sym()) <= k && Derived(p, base, tau, k', n', f)
    ensures InStratum(p, base, sigma, k, f)
    decreases k, 1, k', n', 0
  {
    if n' == 0 && k' == 0 {
      BaseHolds(p, base, sigma, f);
      HoldsWhereSettled(p, base, sigma, k, f);
    } else if n' == 0 {
      var m := RoundOf(p, base, tau, k' - 1, f);
      HoldsBackward(p, base, sigma, tau, k, k' - 1, m, f);
    } else if Derived(p, base, tau, k', n' - 1, f) {
      HoldsBackward(p, base, sigma, tau, k, k', n' - 1, f);
    } else {
      var c, a := HowDerived(p, base, tau, k', n', f);
      forall premise | premise in c.premises
        ensures HoldsPremise(p, base, sigma, premise, a)
      {
        BackwardPremise(p, base, sigma, tau, k, k', n' - 1, c, a, f, premise);
      }
      ModelIsClosed(p, base, sigma, c, a);
      HoldsWhereSettled(p, base, sigma, k, f);
    }
  }

  lemma {:induction false} BackwardPremise(p: Program, base: iset<Fact>, sigma: Strata, tau: Strata, k: nat, k': nat,
                                           n': nat, c: Clause, a: Assignment, f: Fact, premise: Premise)
    requires Stratifies(sigma, p) && Stratifies(tau, p)
    requires sigma(f.Sym()) <= k && Fires(p, base, tau, k', n', c, a, f) && premise in c.premises
    ensures HoldsPremise(p, base, sigma, premise, a)
    decreases k, 1, k', n', 1
  {
    if premise.Pos? {
      HoldsBackward(p, base, sigma, tau, k, k', n', Ground(premise.atom, a));
    } else if premise.Neg? && Holds(p, base, sigma, Ground(premise.atom, a)) {
      var g := Ground(premise.atom, a);
      HoldsWhereSettled(p, base, sigma, k - 1, g);
      var n := RoundOf(p, base, sigma, k - 1, g);
      HoldsForward(p, base, sigma, tau, k - 1, n, g);
      HoldsWhereSettled(p, base, tau, k' - 1, g);
    }
  }

  /** Every stratification of a program gives the same model. */
  lemma StratificationIrrelevant(p: Program, base: iset<Fact>, sigma: Strata, tau: Strata, f: Fact)
    requires Stratifies(sigma, p) && Stratifies(tau, p)
    ensures Holds(p, base, sigma, f) <==> Holds(p, base, tau, f)
  {
    if Holds(p, base, sigma, f) {
      var k :| InStratum(p, base, sigma, k, f);
      var n := RoundOf(p, base, sigma, k, f);
      HoldsForward(p, base, sigma, tau, k, n, f);
    }
    if Holds(p, base, tau, f) {
      var k :| InStratum(p, base, tau, k, f);
      var n := RoundOf(p, base, tau, k, f);
      HoldsForward(p, base, tau, sigma, k, n, f);
    }
  }

  // ------------------------------------------------------------------------------ slices

  /** `q` keeps the clauses of `p` for the predicates of `keep`, and these read only `keep`. */
  ghost predicate IsSlice(p: Program, q: Program, keep: set<string>) {
    forall c: Clause :: c.head.pred in keep && (c in p || c in q) ==>
      && c in p && c in q
      && forall premise <- c.premises :: premise.Pos? || premise.Neg? ==> premise.atom.pred in keep
  }

  lemma {:induction false} SliceDerives(p: Program, q: Program, keep: set<string>, base: iset<Fact>, sigma: Strata,
                                        k: nat, n: nat, f: Fact)
    requires IsSlice(p, q, keep) && f.pred in keep && Derived(p, base, sigma, k, n, f)
    ensures Derived(q, base, sigma, k, n, f)
    decreases k, n
  {
    if n == 0 && k > 0 {
      var m := RoundOf(p, base, sigma, k - 1, f);
      SliceDerives(p, q, keep, base, sigma, k - 1, m, f);
    } else if n > 0 && Derived(p, base, sigma, k, n - 1, f) {
      SliceDerives(p, q, keep, base, sigma, k, n - 1, f);
    } else if n > 0 {
      var c, a := HowDerived(p, base, sigma, k, n, f);
      forall premise | premise in c.premises
        ensures premise.Pos? ==> Derived(q, base, sigma, k, n - 1, Ground(premise.atom, a))
        ensures premise.Neg? ==> !InStratum(q, base, sigma, k - 1, Ground(premise.atom, a))
      {
        if premise.Pos? {
          SliceDerives(p, q, keep, base, sigma, k, n - 1, Ground(premise.atom, a));
        } else if premise.Neg? && InStratum(q, base, sigma, k - 1, Ground(premise.atom, a)) {
          var m := RoundOf(q, base, sigma, k - 1, Ground(premise.atom, a));
          SliceDerives(q, p, keep, base, sigma, k - 1, m, Ground(premise.atom, a));
        }
      }
      assert Fires(q, base, sigma, k, n - 1, c, a, f);
      assert Fired(q, base, sigma, k, n - 1, f);
    }
  }

  /** A program and its slice, each under a stratification of its own, have the same model on the
      kept predicates. */
  lemma SliceHolds(p: Program, q: Program, keep: set<string>, base: iset<Fact>, sigma: Strata, tau: Strata, f: Fact)
    requires IsSlice(p, q, keep) && f.pred in keep
    requires Stratifies(sigma, p) && Stratifies(sigma, q) && Stratifies(tau, q)
    ensures Holds(p, base, sigma, f) <==> Holds(q, base, tau, f)
  {
    StratificationIrrelevant(q, base, sigma, tau, f);
    if Holds(p, base, sigma, f) {
      var k :| InStratum(p, base, sigma, k, f);
      var n := RoundOf(p, base, sigma, k, f);
      SliceDerives(p, q, keep, base, sigma, k, n, f);
      assert InStratum(q, base, sigma, k, f);
    }
    if Holds(q, base, sigma, f) {
      var k :| InStratum(q, base, sigma, k, f);
      var n := RoundOf(q, base, sigma, k, f);
      SliceDerives(q, p, keep, base, sigma, k, n, f);
      assert InStratum(p, base, sigma, k, f);
    }
  }
}
