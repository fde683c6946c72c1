/**
 Conversion of a canonical formula into Conjunctive and Disjunctive Normal
 Form by Shannon expansion on a pivot variable.

 The result of a conversion is either a boolean constant or a set of clauses,
 each clause a set of literals. Read as CNF the set is an AND of ORs; read as
 DNF it is an OR of ANDs.
 */
module NormalForms {
  import opened Formulas

  /** A variable or its negation. */
  datatype Lit = Pos(name: string) | Neg(name: string)

  type Clause = set<Lit>

  datatype ClauseSet = Constant(value: bool) | Clauses(clauses: set<Clause>)

  /** The literal of the same variable with the opposite sign. */
  function Complement(l: Lit): (r: Lit)
    ensures r.name == l.name && r != l
  {
    match l
    case Pos(x) => Neg(x)
    case Neg(x) => Pos(x)
  }

  predicate LitHolds(l: Lit, env: Env)
  {
    match l
    case Pos(x) => env(x)
    case Neg(x) => !env(x)
  }

  /** A clause read as the disjunction of its literals. */
  predicate SomeHolds(c: Clause, env: Env)
  {
    exists l :: l in c && LitHolds(l, env)
  }

  /** A clause read as the conjunction of its literals. */
  predicate AllHold(c: Clause, env: Env)
  {
    forall l :: l in c ==> LitHolds(l, env)
  }

  /** A set of clauses read as a conjunction of disjunctions. */
  predicate CnfHolds(S: set<Clause>, env: Env)
  {
    forall c :: c in S ==> SomeHolds(c, env)
  }

  /** A set of clauses read as a disjunction of conjunctions. */
  predicate DnfHolds(S: set<Clause>, env: Env)
  {
    exists c :: c in S && AllHold(c, env)
  }

  function EvalCnf(cs: ClauseSet, env: Env): bool
  {
    match cs
    case Constant(b) => b
    case Clauses(S) => CnfHolds(S, env)
  }

  function EvalDnf(cs: ClauseSet, env: Env): bool
  {
    match cs
    case Constant(b) => b
    case Clauses(S) => DnfHolds(S, env)
  }

  /** No clause mentions one variable twice (so never both signs of it). */
  predicate Consistent(c: Clause)
  {
    forall l1, l2 :: l1 in c && l2 in c && l1.name == l2.name ==> l1 == l2
  }

  /** The clause sets the converters never return, because they collapse to a
      constant: the empty set and the pair of complementary unit clauses. */
  ghost predicate Degenerate(S: set<Clause>)
  {
    S == {} || exists x :: S == {{Pos(x)}, {Neg(x)}}
  }

  /** The shape of every clause set a converter returns for a formula over `vars`. */
  ghost predicate WellFormed(S: set<Clause>, vars: set<string>)
  {
    && !Degenerate(S)
    && forall c :: c in S ==> c != {} && Consistent(c) && forall l :: l in c ==> l.name in vars
  }

  /** Clauses of one expansion branch, with the pivot literal `l` added to each.
      A branch equal to the `neutral` constant contributes no clause, the other
      constant contributes the unit clause `{l}`. */
  function Lift(b: ClauseSet, l: Lit, neutral: bool): (r: set<Clause>)
    // every clause of the branch carries the pivot literal
    ensures forall c :: c in r ==> l in c
    // a constant sub-result contributes nothing exactly when it is the neutral one,
    // and the unit clause otherwise
    ensures b.Constant? ==> (r == {} <==> b.value == neutral)
    ensures b.Constant? && b.value != neutral ==> r == {{l}}
    // a clause-set sub-result contributes each of its clauses extended by the pivot
    ensures b.Clauses? ==> forall c :: c in b.clauses ==> c + {l} in r
    // and nothing else
    ensures b.Clauses? ==> forall c :: c in r ==> exists d :: d in b.clauses && c == d + {l}
  {
    match b
    case Constant(v) => if v == neutral then {} else {{l}}
    case Clauses(S) => set c | c in S :: c + {l}
  }

  /** The collapse of a degenerate expansion on `x` to the constant it stands for. */
  function Collapse(S: set<Clause>, x: string, neutral: bool): (r: ClauseSet)
    // a clause set survives unchanged unless it is empty or the complementary pair on x
    ensures r.Constant? <==> S == {} || S == {{Pos(x)}, {Neg(x)}}
    ensures r.Clauses? ==> r.clauses == S
    // the empty set stands for the neutral constant, the pair for the other one
    ensures r.Constant? ==> (r.value == neutral <==> S == {})
  {
    if S == {} then Constant(neutral)
    else if S == {{Pos(x)}, {Neg(x)}} then Constant(!neutral)
    else Clauses(S)
  }

  lemma LiftCnf(b: ClauseSet, l: Lit, env: Env)
    ensures CnfHolds(Lift(b, l, true), env) == (LitHolds(l, env) || EvalCnf(b, env))
  {
    if b.Clauses? {
      if LitHolds(l, env) {
        forall c' | c' in Lift(b, l, true)
          ensures SomeHolds(c', env)
        {
          assert l in c';
        }
      } else if CnfHolds(b.clauses, env) {
        forall c' | c' in Lift(b, l, true)
          ensures SomeHolds(c', env)
        {
          var c :| c in b.clauses && c' == c + {l};
          assert SomeHolds(c, env);
        }
      } else {
        var c :| c in b.clauses && !SomeHolds(c, env);
        assert c + {l} in Lift(b, l, true);
      }
    }
  }

  lemma LiftDnf(b: ClauseSet, l: Lit, env: Env)
    ensures DnfHolds(Lift(b, l, false), env) == (LitHolds(l, env) && EvalDnf(b, env))
  {
    if b.Clauses? {
      if !LitHolds(l, env) {
        forall c' | c' in Lift(b, l, false)
          ensures !AllHold(c', env)
        {
          assert l in c';
        }
      } else if DnfHolds(b.clauses, env) {
        var c :| c in b.clauses && AllHold(c, env);
        assert c + {l} in Lift(b, l, false);
      } else {
        forall c' | c' in Lift(b, l, false)
          ensures !AllHold(c', env)
        {
          var c :| c in b.clauses && c' == c + {l};
          assert !AllHold(c, env);
        }
      }
    }
  }

  lemma CollapseCnf(S: set<Clause>, x: string, env: Env)
    ensures EvalCnf(Collapse(S, x, true), env) == CnfHolds(S, env)
  {
  }

  lemma CollapseDnf(S: set<Clause>, x: string, env: Env)
    ensures EvalDnf(Collapse(S, x, false), env) == DnfHolds(S, env)
  {
  }

  /** Every clause of an expansion branch carries the branch's pivot literal
      and keeps the shape its sub-result had. */
  lemma LiftShape(b: ClauseSet, l: Lit, neutral: bool, vars: set<string>)
    requires l.name !in vars
    requires b.Clauses? ==> WellFormed(b.clauses, vars)
    ensures forall c :: c in Lift(b, l, neutral) ==>
      && l in c && Consistent(c)
      && forall m :: m in c ==> m.name in vars + {l.name}
  {
  }

  /** Collapsing the union of the two branches on `x` never leaves a degenerate
      clause set behind. */
  lemma CollapseShape(S: set<Clause>, x: string, neutral: bool, vars: set<string>)
    requires x in vars
    requires forall c :: c in S ==> (Pos(x) in c || Neg(x) in c) && Consistent(c)
    requires forall c, m :: c in S && m in c ==> m.name in vars
    ensures Collapse(S, x, neutral).Clauses? ==> WellFormed(S, vars)
  {
  }

  /** One Shannon step for CNF: the collapsed union of the two lifted branches
      means the formula when each branch means its substitution. */
  lemma ExpandCnf(f: Formula, x: string, b0: ClauseSet, b1: ClauseSet)
    requires forall env :: EvalCnf(b0, env) == Eval(Subs(f, x, false), env)
    requires forall env :: EvalCnf(b1, env) == Eval(Subs(f, x, true), env)
    ensures forall env ::
      EvalCnf(Collapse(Lift(b0, Pos(x), true) + Lift(b1, Neg(x), true), x, true), env) == Eval(f, env)
  {
    var result := Lift(b0, Pos(x), true) + Lift(b1, Neg(x), true);
    forall env: Env
      ensures EvalCnf(Collapse(result, x, true), env) == Eval(f, env)
    {
      LiftCnf(b0, Pos(x), env);
      LiftCnf(b1, Neg(x), env);
      CollapseCnf(result, x, env);
      Shannon(f, x, env);
    }
  }

  /** One Shannon step for DNF, dual to `ExpandCnf`. */
  lemma ExpandDnf(f: Formula, x: string, b1: ClauseSet, b0: ClauseSet)
    requires forall env :: EvalDnf(b1, env) == Eval(Subs(f, x, true), env)
    requires forall env :: EvalDnf(b0, env) == Eval(Subs(f, x, false), env)
    ensures forall env ::
      EvalDnf(Collapse(Lift(b1, Pos(x), false) + Lift(b0, Neg(x), false), x, false), env) == Eval(f, env)
  {
    var result := Lift(b1, Pos(x), false) + Lift(b0, Neg(x), false);
    forall env: Env
      ensures EvalDnf(Collapse(result, x, false), env) == Eval(f, env)
    {
      LiftDnf(b1, Pos(x), env);
      LiftDnf(b0, Neg(x), env);
      CollapseDnf(result, x, env);
      Shannon(f, x, env);
    }
  }

  /** One Shannon step keeps the shape of the branches' clause sets. */
  lemma ExpandShape(bp: ClauseSet, bn: ClauseSet, x: string, neutral: bool, vars: set<string>)
    requires x in vars
    requires bp.Clauses? ==> WellFormed(bp.clauses, vars - {x})
    requires bn.Clauses? ==> WellFormed(bn.clauses, vars - {x})
    ensures var r := Collapse(Lift(bp, Pos(x), neutral) + Lift(bn, Neg(x), neutral), x, neutral);
      r.Clauses? ==> WellFormed(r.clauses, vars)
  {
    LiftShape(bp, Pos(x), neutral, vars - {x});
    LiftShape(bn, Neg(x), neutral, vars - {x});
    CollapseShape(Lift(bp, Pos(x), neutral) + Lift(bn, Neg(x), neutral), x, neutral, vars);
  }

  /** CNF by Shannon expansion A = (x OR A[x:=0]) AND (NOT x OR A[x:=1]) on an
      arbitrary pivot variable `x` of the formula. */
  method ToCnf(f: Formula) returns (r: ClauseSet)
    requires Canonical(f)
    ensures f.Const? ==> r == Constant(f.value)
    ensures forall env :: EvalCnf(r, env) == Eval(f, env)
    ensures r.Clauses? ==> WellFormed(r.clauses, Vars(f))
    decreases Vars(f)
  {
    if f.Const? {
      return Constant(f.value);
    }
    NonConstantHasVariable(f);
    var x :| x in Vars(f);
    var f0, f1 := Subs(f, x, false), Subs(f, x, true);
    SubsCanonical(f, x, false);
    SubsCanonical(f, x, true);
    var b0 := ToCnf(f0);
    var b1 := ToCnf(f1);
    r := Collapse(Lift(b0, Pos(x), true) + Lift(b1, Neg(x), true), x, true);
    ExpandCnf(f, x, b0, b1);
    ExpandShape(b0, b1, x, true, Vars(f));
  }

  /** DNF by Shannon expansion A = (x AND A[x:=1]) OR (NOT x AND A[x:=0]) on an
      arbitrary pivot variable `x` of the formula. */
  method ToDnf(f: Formula) returns (r: ClauseSet)
    requires Canonical(f)
    ensures f.Const? ==> r == Constant(f.value)
    ensures forall env :: EvalDnf(r, env) == Eval(f, env)
    ensures r.Clauses? ==> WellFormed(r.clauses, Vars(f))
    decreases Vars(f)
  {
    if f.Const? {
      return Constant(f.value);
    }
    NonConstantHasVariable(f);
    var x :| x in Vars(f);
    var f1, f0 := Subs(f, x, true), Subs(f, x, false);
    SubsCanonical(f, x, true);
    SubsCanonical(f, x, false);
    var b1 := ToDnf(f1);
    var b0 := ToDnf(f0);
    r := Collapse(Lift(b1, Pos(x), false) + Lift(b0, Neg(x), false), x, false);
    ExpandDnf(f, x, b1, b0);
    ExpandShape(b1, b0, x, false, Vars(f));
  }

  /** A single variable has one CNF whichever way the expansion goes: the
      unit clause of the variable. */
  method SingleVariableCnf(x: string) returns (r: ClauseSet)
    ensures r == Clauses({{Pos(x)}})
  {
    r := ToCnf(Var(x));
    var yes: Env := _ => true;
    var no: Env := _ => false;
    assert EvalCnf(r, yes) && !EvalCnf(r, no);
    assert r.Clauses?;
    var S := r.clauses;
    assert WellFormed(S, {x});
    forall c | c in S
      ensures c == {Pos(x)}
    {
      assert SomeHolds(c, yes);
      var l :| l in c && LitHolds(l, yes);
      assert l == Pos(x);
      forall m | m in c
        ensures m == Pos(x)
      {
        assert m.name == x;
      }
    }
    var c :| c in S;
    assert S == {{Pos(x)}};
  }

  /** A negated variable has one DNF whichever way the expansion goes: the
      unit clause of the negative literal. */
  method NegatedVariableDnf(x: string) returns (r: ClauseSet)
    ensures r == Clauses({{Neg(x)}})
  {
    r := ToDnf(Not(Var(x)));
    var yes: Env := _ => true;
    var no: Env := _ => false;
    assert !Eval(Not(Var(x)), yes) && Eval(Not(Var(x)), no);
    assert !EvalDnf(r, yes) && EvalDnf(r, no);
    assert r.Clauses?;
    assert Vars(Not(Var(x))) == {x};
    var S := r.clauses;
    assert WellFormed(S, {x});
    forall c | c in S
      ensures c == {Neg(x)}
    {
      assert !AllHold(c, yes);
      var l :| l in c && !LitHolds(l, yes);
      assert l == Neg(x);
      forall m | m in c
        ensures m == Neg(x)
      {
        assert m.name == x;
      }
    }
    var c :| c in S;
    assert S == {{Neg(x)}};
  }
}
