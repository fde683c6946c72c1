/**
 Post-processing of a clause set by unit-clause absorption and contradiction
 detection, optionally iterated until a pass changes nothing.

 The same procedure serves both readings of a clause set: the caller supplies
 the constant a degenerate set stands for (false for a CNF, true for a DNF).
 */
module Optimizer {
  import opened Formulas
  import opened NormalForms

  /** The unit clauses of a clause set. */
  function Units(S: set<Clause>): set<Clause>
  {
    set c | c in S && |c| == 1
  }

  /** The literals the unit clauses force: the union of the unit clauses. */
  function Forced(S: set<Clause>): set<Lit>
  {
    set c, l | c in S && |c| == 1 && l in c :: l
  }

  /** The complements of the forced literals. */
  function Refuted(S: set<Clause>): set<Lit>
  {
    set l | l in Forced(S) :: Complement(l)
  }

  /** Every literal occurring in some clause. */
  function Literals(S: set<Clause>): set<Lit>
  {
    set c, l | c in S && l in c :: l
  }

  /** Some forced literal is also refuted: two unit clauses contradict. */
  predicate UnitConflict(S: set<Clause>)
  {
    Forced(S) * Refuted(S) != {}
  }

  /** Some clause without a forced literal consists of refuted literals only. */
  predicate EmptiesClause(S: set<Clause>)
  {
    exists c :: c in S && c !! Forced(S) && c - Refuted(S) == {}
  }

  /** The clauses without a forced literal, with their refuted literals removed. */
  function Reduced(S: set<Clause>): set<Clause>
  {
    set c | c in S && c !! Forced(S) :: c - Refuted(S)
  }

  lemma Disjoint(a: set<Lit>, b: set<Lit>)
    requires a * b == {}
    ensures a !! b
  {
    forall x | x in a
      ensures x !in b
    {
      assert x !in a * b;
    }
  }

  lemma SingletonClause(c: Clause, l: Lit)
    requires |c| == 1 && l in c
    ensures c == {l}
  {
    assert |c - {l}| == 0;
    assert c - {l} == {};
  }

  /** A literal is forced exactly when it forms a unit clause. */
  lemma ForcedIsUnits(S: set<Clause>)
    ensures forall l :: l in Forced(S) <==> {l} in S
  {
    forall l | l in Forced(S)
      ensures {l} in S
    {
      var c :| c in S && |c| == 1 && l in c;
      SingletonClause(c, l);
    }
    forall l | {l} in S
      ensures l in Forced(S)
    {
      assert |{l}| == 1;
    }
  }

  /** A literal is refuted exactly when its complement is forced. */
  lemma RefutedIsComplementOfForced(S: set<Clause>)
    ensures forall l :: l in Refuted(S) <==> Complement(l) in Forced(S)
  {
  }

  /** One pass of unit absorption. */
  function Pass(S: set<Clause>, default: bool): (r: ClauseSet)
    ensures S == {} ==> r == Constant(default)
    ensures Units(S) == {} && S != {} ==> r == Clauses(S)
    ensures Units(S) != {} && (UnitConflict(S) || EmptiesClause(S)) ==> r == Constant(default)
    ensures r.Clauses? ==> r.clauses != {}
    // the only constant a pass returns is the default value
    ensures r.Constant? ==> r == Constant(default)
  {
    if Units(S) == {} then
      if S == {} then Constant(default) else Clauses(S)
    else if UnitConflict(S) then Constant(default)
    else if EmptiesClause(S) then Constant(default)
    else
      var result := Units(S) + Reduced(S);
      if result == {} then Constant(default) else Clauses(result)
  }

  /** Without unit clauses nothing is forced. */
  lemma NoUnitsForceNothing(S: set<Clause>)
    ensures Units(S) == {} ==> Forced(S) == {}
  {
    forall l | l in Forced(S)
      ensures Units(S) != {}
    {
      var c :| c in S && |c| == 1 && l in c;
      assert c in Units(S);
    }
  }

  /** The clause set a pass returns when nothing collapses it to the default. */
  lemma PassResult(S: set<Clause>, default: bool)
    requires Units(S) != {} && !UnitConflict(S) && !EmptiesClause(S)
    ensures Pass(S, default) == Clauses(Units(S) + Reduced(S))
  {
  }

  /** What one pass keeps, drops and shortens. */
  lemma PassShape(S: set<Clause>, default: bool)
    requires Pass(S, default).Clauses?
    // unit clauses are kept
    ensures forall c :: c in S && |c| == 1 ==> c in Pass(S, default).clauses
    // other clauses holding a forced literal are absorbed
    ensures forall c :: c in S && |c| != 1 && c * Forced(S) != {} ==> c !in Pass(S, default).clauses
    // the remaining clauses lose exactly the literals whose negation is forced
    ensures forall c :: c in S && c !! Forced(S) ==> c - Refuted(S) in Pass(S, default).clauses
    // and nothing else is in the result
    ensures forall c :: c in Pass(S, default).clauses ==>
      (c in S && |c| == 1) || exists d :: d in S && d !! Forced(S) && c == d - Refuted(S)
  {
    var R := Pass(S, default).clauses;
    if Units(S) == {} {
      NoUnitsForceNothing(S);
      assert R == S;
      forall c | c in S
        ensures c - Refuted(S) in R
      {
        assert c - Refuted(S) == c;
      }
      forall c | c in R
        ensures exists d :: d in S && d !! Forced(S) && c == d - Refuted(S)
      {
        assert c == c - Refuted(S);
      }
    } else {
      PassResult(S, default);
      assert R == Units(S) + Reduced(S);
      forall c | c in S && c !! Forced(S)
        ensures c - Refuted(S) in R
      {
        assert c - Refuted(S) in Reduced(S);
      }
      forall c | c in S && |c| != 1 && c * Forced(S) != {}
        ensures c !in R
      {
        var f :| f in c * Forced(S);
        forall d | d in S && d !! Forced(S)
          ensures c != d - Refuted(S)
        {
          assert f !in d;
        }
      }
    }
  }

  /** Two complementary unit clauses make a pass return the default value. */
  lemma ComplementaryUnits(S: set<Clause>, l: Lit, default: bool)
    requires {l} in S && {Complement(l)} in S
    ensures Pass(S, default) == Constant(default)
  {
    ForcedIsUnits(S);
    assert {l} in Units(S);
    assert Complement(l) in Forced(S) * Refuted(S);
  }

  /** Optimisation of a clause set: one pass, repeated while `recursive` holds
      and the pass still changes the set. */
  function OptimizeSet(S: set<Clause>, default: bool, recursive: bool): (r: ClauseSet)
    ensures !recursive ==> r == Pass(S, default)
    ensures r.Clauses? ==> r.clauses != {} && Literals(r.clauses) <= Literals(S)
    ensures recursive && r.Clauses? ==> Pass(r.clauses, default) == r
    ensures r.Constant? ==> r == Constant(default)
    decreases Literals(S), S
  {
    var p := Pass(S, default);
    if p.Constant? || !recursive || p.clauses == S then
      PassLiterals(S, default);
      p
    else
      PassShrinks(S, default);
      OptimizeSet(p.clauses, default, recursive)
  }

  /** optimize_clauses: constants pass through, clause sets are optimised. */
  function Optimize(cs: ClauseSet, default: bool, recursive: bool): (r: ClauseSet)
    ensures cs.Constant? ==> r == cs
    ensures cs == Clauses({}) ==> r == Constant(default)
    ensures cs.Clauses? && Units(cs.clauses) == {} && cs.clauses != {} ==> r == cs
    ensures cs.Clauses? && Units(cs.clauses) != {} && (UnitConflict(cs.clauses) || EmptiesClause(cs.clauses))
      ==> r == Constant(default)
    ensures cs.Clauses? && !recursive ==> r == Pass(cs.clauses, default)
    ensures recursive && r.Clauses? ==> Pass(r.clauses, default) == r
    // a clause set is never turned into any constant but the default value
    ensures cs.Clauses? && r.Constant? ==> r == Constant(default)
  {
    match cs
    case Constant(_) => cs
    case Clauses(S) => OptimizeSet(S, default, recursive)
  }

  /** A pass introduces no literal. */
  lemma PassLiterals(S: set<Clause>, default: bool)
    ensures Pass(S, default).Clauses? ==> Literals(Pass(S, default).clauses) <= Literals(S)
  {
  }

  /** A refuted literal of a clause without forced literals occurs nowhere
      after a pass. */
  lemma RefutedLiteralVanishes(S: set<Clause>, n: Lit)
    requires !UnitConflict(S)
    requires n in Refuted(S)
    ensures n !in Literals(Units(S) + Reduced(S))
  {
    var R := Units(S) + Reduced(S);
    forall c' | c' in R
      ensures n !in c'
    {
      if c' in Units(S) {
        assert forall m :: m in c' ==> m in Forced(S);
        assert n !in Forced(S) * Refuted(S);
      } else {
        var d :| d in S && d !! Forced(S) && c' == d - Refuted(S);
      }
    }
  }

  /** If no clause loses a literal, a pass only drops clauses. */
  lemma NothingStrippedIsSubset(S: set<Clause>)
    requires forall c :: c in S && c !! Forced(S) ==> c * Refuted(S) == {}
    ensures Units(S) + Reduced(S) <= S
  {
    forall c' | c' in Reduced(S)
      ensures c' in S
    {
      var d :| d in S && d !! Forced(S) && c' == d - Refuted(S);
      assert c' == d;
    }
  }

  /** A pass that changes the set either drops a literal from the set altogether
      or keeps a strict subset of its clauses. */
  lemma PassShrinks(S: set<Clause>, default: bool)
    requires Pass(S, default).Clauses? && Pass(S, default).clauses != S
    ensures var R := Pass(S, default).clauses;
      Literals(R) < Literals(S) || (Literals(R) == Literals(S) && R < S)
  {
    var R := Pass(S, default).clauses;
    PassLiterals(S, default);
    assert Units(S) != {};
    PassResult(S, default);
    if exists c :: c in S && c !! Forced(S) && c * Refuted(S) != {} {
      var c :| c in S && c !! Forced(S) && c * Refuted(S) != {};
      var n :| n in c * Refuted(S);
      assert n in Literals(S);
      RefutedLiteralVanishes(S, n);
    } else {
      NothingStrippedIsSubset(S);
    }
  }

  lemma ComplementFlips(l: Lit, env: Env)
    ensures LitHolds(Complement(l), env) == !LitHolds(l, env)
  {
  }

  /** Under a model of a CNF, every forced literal holds and every refuted one fails. */
  lemma CnfForces(S: set<Clause>, env: Env)
    ensures CnfHolds(S, env) ==> forall l :: l in Refuted(S) ==> !LitHolds(l, env)
  {
    if CnfHolds(S, env) {
      ForcedIsUnits(S);
      forall l | l in Refuted(S)
        ensures !LitHolds(l, env)
      {
        var u :| u in Forced(S) && l == Complement(u);
        assert SomeHolds({u}, env);
      }
    }
  }

  /** Two contradicting unit clauses make a CNF unsatisfiable and a DNF valid. */
  lemma ConflictDecides(S: set<Clause>, env: Env)
    requires UnitConflict(S)
    ensures !CnfHolds(S, env) && DnfHolds(S, env)
  {
    ForcedIsUnits(S);
    var l :| l in Forced(S) * Refuted(S);
    var u :| u in Forced(S) && l == Complement(u);
    assert {l} in S && {u} in S;
    ComplementFlips(u, env);
    if LitHolds(u, env) {
      assert !SomeHolds({l}, env);
      assert AllHold({u}, env);
    } else {
      assert !SomeHolds({u}, env);
      assert AllHold({l}, env);
    }
  }

  /** A clause made only of refuted literals makes a CNF unsatisfiable and a DNF valid. */
  lemma EmptiedDecides(S: set<Clause>, env: Env)
    requires EmptiesClause(S)
    ensures !CnfHolds(S, env) && DnfHolds(S, env)
  {
    ForcedIsUnits(S);
    var c :| c in S && c !! Forced(S) && c - Refuted(S) == {};
    assert forall l :: l in c ==> l in Refuted(S) by {
      forall l | l in c
        ensures l in Refuted(S)
      {
        assert l !in c - Refuted(S);
      }
    }
    CnfForces(S, env);
    assert CnfHolds(S, env) ==> !SomeHolds(c, env);
    if exists u :: u in Forced(S) && LitHolds(u, env) {
      var u :| u in Forced(S) && LitHolds(u, env);
      assert AllHold({u}, env);
    } else {
      forall l | l in c
        ensures LitHolds(l, env)
      {
        var u :| u in Forced(S) && l == Complement(u);
        ComplementFlips(u, env);
      }
      assert AllHold(c, env);
    }
  }

  /** Read as a CNF, the unit clauses with the reduced clauses mean what the set means. */
  lemma CnfReducedEquivalent(S: set<Clause>, env: Env)
    ensures CnfHolds(Units(S) + Reduced(S), env) == CnfHolds(S, env)
  {
    var F, N, R := Forced(S), Refuted(S), Units(S) + Reduced(S);
    ForcedIsUnits(S);
    if CnfHolds(S, env) {
      CnfForces(S, env);
      forall c' | c' in R
        ensures SomeHolds(c', env)
      {
        if c' !in Units(S) {
          var c :| c in S && c !! F && c' == c - N;
          assert SomeHolds(c, env);
          var l :| l in c && LitHolds(l, env);
          assert l in c';
        }
      }
    }
    if CnfHolds(R, env) {
      forall c | c in S
        ensures SomeHolds(c, env)
      {
        if c * F != {} {
          var u :| u in c * F;
          assert {u} in R;
          assert SomeHolds({u}, env);
        } else {
          Disjoint(c, F);
          assert c - N in R;
          assert SomeHolds(c - N, env);
        }
      }
    }
  }

  /** Read as a DNF, the unit clauses with the reduced clauses mean what the set means. */
  lemma DnfReducedEquivalent(S: set<Clause>, env: Env)
    ensures DnfHolds(Units(S) + Reduced(S), env) == DnfHolds(S, env)
  {
    var F, N, R := Forced(S), Refuted(S), Units(S) + Reduced(S);
    ForcedIsUnits(S);
    if DnfHolds(S, env) {
      var c :| c in S && AllHold(c, env);
      if c * F != {} {
        var u :| u in c * F;
        assert {u} in R && AllHold({u}, env);
      } else {
        Disjoint(c, F);
        assert c - N in R && AllHold(c - N, env);
      }
    }
    if DnfHolds(R, env) {
      var c' :| c' in R && AllHold(c', env);
      if c' !in Units(S) {
        var c :| c in S && c !! F && c' == c - N;
        if exists u :: u in F && LitHolds(u, env) {
          var u :| u in F && LitHolds(u, env);
          assert AllHold({u}, env);
        } else {
          forall l | l in c
            ensures LitHolds(l, env)
          {
            if l in N {
              var u :| u in F && l == Complement(u);
              ComplementFlips(u, env);
            } else {
              assert l in c';
            }
          }
          assert AllHold(c, env);
        }
      }
    }
  }

  /** Read as a CNF, one pass with default false keeps the meaning of a non-empty set. */
  lemma PassCnfEquivalent(S: set<Clause>, env: Env)
    requires S != {}
    ensures EvalCnf(Pass(S, false), env) == CnfHolds(S, env)
  {
    if Units(S) != {} {
      if UnitConflict(S) {
        ConflictDecides(S, env);
      } else if EmptiesClause(S) {
        EmptiedDecides(S, env);
      } else {
        PassResult(S, false);
        CnfReducedEquivalent(S, env);
      }
    }
  }

  /** Read as a DNF, one pass with default true keeps the meaning of a non-empty set. */
  lemma PassDnfEquivalent(S: set<Clause>, env: Env)
    requires S != {}
    ensures EvalDnf(Pass(S, true), env) == DnfHolds(S, env)
  {
    if Units(S) != {} {
      if UnitConflict(S) {
        ConflictDecides(S, env);
      } else if EmptiesClause(S) {
        EmptiedDecides(S, env);
      } else {
        PassResult(S, true);
        DnfReducedEquivalent(S, env);
      }
    }
  }

  /** Optimising a non-empty CNF with default false keeps its meaning. */
  lemma {:induction false} OptimizeCnfEquivalent(S: set<Clause>, recursive: bool, env: Env)
    requires S != {}
    ensures EvalCnf(Optimize(Clauses(S), false, recursive), env) == CnfHolds(S, env)
    decreases Literals(S), S
  {
    PassCnfEquivalent(S, env);
    var p := Pass(S, false);
    if p.Clauses? && recursive && p.clauses != S {
      PassShrinks(S, false);
      OptimizeCnfEquivalent(p.clauses, recursive, env);
    }
  }

  /** Optimising a non-empty DNF with default true keeps its meaning. */
  lemma {:induction false} OptimizeDnfEquivalent(S: set<Clause>, recursive: bool, env: Env)
    requires S != {}
    ensures EvalDnf(Optimize(Clauses(S), true, recursive), env) == DnfHolds(S, env)
    decreases Literals(S), S
  {
    PassDnfEquivalent(S, env);
    var p := Pass(S, true);
    if p.Clauses? && recursive && p.clauses != S {
      PassShrinks(S, true);
      OptimizeDnfEquivalent(p.clauses, recursive, env);
    }
  }

  /** Optimising with `recursive` set is idempotent. */
  lemma OptimizeIdempotent(cs: ClauseSet, default: bool)
    ensures Optimize(Optimize(cs, default, true), default, true) == Optimize(cs, default, true)
  {
  }

  /** The CNF pipeline of the command loop: conversion, then optimisation with
      default false. */
  method CnfOf(f: Formula) returns (r: ClauseSet)
    requires Canonical(f)
    ensures forall env :: EvalCnf(r, env) == Eval(f, env)
  {
    var cnf := ToCnf(f);
    r := Optimize(cnf, false, true);
    forall env: Env
      ensures EvalCnf(r, env) == Eval(f, env)
    {
      if cnf.Clauses? {
        OptimizeCnfEquivalent(cnf.clauses, true, env);
      }
    }
  }

  /** The DNF pipeline of the command loop: conversion, then optimisation with
      default true. */
  method DnfOf(f: Formula) returns (r: ClauseSet)
    requires Canonical(f)
    ensures forall env :: EvalDnf(r, env) == Eval(f, env)
  {
    var dnf := ToDnf(f);
    r := Optimize(dnf, true, true);
    forall env: Env
      ensures EvalDnf(r, env) == Eval(f, env)
    {
      if dnf.Clauses? {
        OptimizeDnfEquivalent(dnf.clauses, true, env);
      }
    }
  }
}
