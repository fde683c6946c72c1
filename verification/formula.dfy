/**
 Propositional formulas kept in a canonical, self-simplifying tree form.

 A formula is a constant, a variable, a negation or a binary connective. Binary
 connectives are described only by their four-entry truth tables; the smart
 constructors MkNot and MkBin consult those tables and may return a different
 variant than the one asked for (a constant, one operand, or its negation), so
 that no statically reducible node is ever built.
 */
module Formulas {

  /** The three binary connectives of the system. */
  datatype Connective = Conj | Disj | Impl

  /** Truth table of a connective, listed for the operand pairs
      (F,F), (F,T), (T,F), (T,T): the entry for (a, b) sits at index 2*a + b. */
  function Table(op: Connective): (t: seq<bool>)
    ensures |t| == 4
  {
    match op
    case Conj => [false, false, false, true]
    case Disj => [false, true, true, true]
    case Impl => [true, true, false, true]
  }

  /** A boolean read as the integer 0 or 1, as a table index. */
  function Bit(b: bool): nat
  {
    if b then 1 else 0
  }

  /** Value of a connective on two operand values, read from its table. */
  function Apply(op: Connective, a: bool, b: bool): bool
  {
    Table(op)[2 * Bit(a) + Bit(b)]
  }

  datatype Formula =
    | Const(value: bool)
    | Var(name: string)
    | Not(arg: Formula)
    | Bin(op: Connective, left: Formula, right: Formula)

  /** An assignment of truth values to every variable name. */
  type Env = string -> bool

  /** The assignment `env` with `x` set to `value`. */
  function Assign(env: Env, x: string, value: bool): Env
  {
    y => if y == x then value else env(y)
  }

  function Eval(f: Formula, env: Env): bool
  {
    match f
    case Const(b) => b
    case Var(x) => env(x)
    case Not(g) => !Eval(g, env)
    case Bin(op, l, r) => Apply(op, Eval(l, env), Eval(r, env))
  }

  /** Number of nodes of a formula tree. */
  function Size(f: Formula): nat
  {
    match f
    case Const(_) => 1
    case Var(_) => 1
    case Not(g) => 1 + Size(g)
    case Bin(_, l, r) => 1 + Size(l) + Size(r)
  }

  /** The variable leaves of a formula, left to right, with repetitions. */
  function Leaves(f: Formula): seq<string>
  {
    match f
    case Const(_) => []
    case Var(x) => [x]
    case Not(g) => Leaves(g)
    case Bin(_, l, r) => Leaves(l) + Leaves(r)
  }

  /** The variables occurring in a formula (extract_variables). */
  function Vars(f: Formula): set<string>
  {
    match f
    case Const(_) => {}
    case Var(x) => {x}
    case Not(g) => Vars(g)
    case Bin(_, l, r) => Vars(l) + Vars(r)
  }

  /** The extracted variables are exactly the names on the variable leaves. */
  lemma {:induction false} VarsAreLeaves(f: Formula)
    ensures forall x :: x in Vars(f) <==> x in Leaves(f)
  {
    match f
    case Const(_) =>
    case Var(_) =>
    case Not(g) => VarsAreLeaves(g);
    case Bin(_, l, r) => VarsAreLeaves(l); VarsAreLeaves(r);
  }

  /** The canonical-form invariant every formula built through the smart
      constructors keeps: no negated constant, no double negation, and no
      binary node with a constant child or with equal or complementary children. */
  predicate Canonical(f: Formula)
  {
    match f
    case Const(_) => true
    case Var(_) => true
    case Not(g) => !g.Const? && !g.Not? && Canonical(g)
    case Bin(_, l, r) =>
      && !l.Const? && !r.Const? && l != r && l != MkNot(r)
      && Canonical(l) && Canonical(r)
  }

  /** Smart negation: flips a constant, unwraps a negation, wraps anything else. */
  function MkNot(x: Formula): (r: Formula)
    ensures x.Const? ==> r == Const(!x.value)
    ensures x.Not? ==> r == x.arg
    ensures !x.Const? && !x.Not? ==> r == Not(x)
    ensures forall env :: Eval(r, env) == !Eval(x, env)
    ensures Vars(r) == Vars(x)
  {
    match x
    case Const(b) => Const(!b)
    case Not(g) => g
    case _ => Not(x)
  }

  /** Smart negation keeps the canonical form. */
  lemma MkNotCanonical(x: Formula)
    ensures Canonical(x) ==> Canonical(MkNot(x))
  {
  }

  /** Negation is an involution on canonical formulas. */
  lemma NegationInvolution(x: Formula)
    requires Canonical(x)
    ensures MkNot(MkNot(x)) == x
  {
  }

  /** The connective's result when one operand is fixed to `c` and the other
      ranges over {F, T}: the pair of table entries `[T[2c], T[2c+1]]` (left fixed)
      or `[T[c], T[2+c]]` (right fixed) decides between a constant, the other
      operand and its negation. */
  function Resolve(lo: bool, hi: bool, other: Formula): (r: Formula)
    ensures lo == hi ==> r == Const(lo)
    ensures lo != hi ==> r == (if lo then MkNot(other) else other)
    ensures Vars(r) <= Vars(other)
    ensures Size(r) <= Size(other) + 1
  {
    if lo == hi then Const(lo)
    else if lo then MkNot(other)
    else other
  }

  /** Smart binary constructor: builds `Bin(op, left, right)` unless a constant
      operand, equal operands or complementary operands let the truth table
      decide the result outright. */
  function MkBin(op: Connective, left: Formula, right: Formula): (r: Formula)
    // the result always means what the connective means
    ensures forall env :: Eval(r, env) == Apply(op, Eval(left, env), Eval(right, env))
    // two constants: the table entry
    ensures left.Const? && right.Const? ==> r == Const(Apply(op, left.value, right.value))
    // one constant: a constant when the two relevant entries agree,
    // otherwise the other operand or its negation
    ensures left.Const? && !right.Const? ==>
      if Apply(op, left.value, false) == Apply(op, left.value, true)
      then r == Const(Apply(op, left.value, false))
      else r == right || r == MkNot(right)
    ensures !left.Const? && right.Const? ==>
      if Apply(op, false, right.value) == Apply(op, true, right.value)
      then r == Const(Apply(op, false, right.value))
      else r == left || r == MkNot(left)
    // equal operands: rows (F,F) and (T,T)
    ensures !left.Const? && !right.Const? && left == right ==>
      if Table(op)[0] == Table(op)[3] then r == Const(Table(op)[0])
      else r == left || r == MkNot(left)
    // complementary operands: rows (F,T) and (T,F)
    ensures !left.Const? && !right.Const? && left != right && left == MkNot(right) ==>
      if Table(op)[1] == Table(op)[2] then r == Const(Table(op)[1])
      else r == left || r == MkNot(left)
    ensures Vars(r) <= Vars(left) + Vars(right)
  {
    var t := Table(op);
    if left.Const? && right.Const? then
      Const(t[2 * Bit(left.value) + Bit(right.value)])
    else if left.Const? then
      Resolve(t[2 * Bit(left.value)], t[2 * Bit(left.value) + 1], right)
    else if right.Const? then
      Resolve(t[Bit(right.value)], t[2 + Bit(right.value)], left)
    else if left == right then
      Resolve(t[0], t[3], left)
    else if left == MkNot(right) then
      Resolve(t[1], t[2], left)
    else
      Bin(op, left, right)
  }

  /** A binary node survives construction, with its children in the given
      order, exactly when none of the simplifications applies. */
  lemma MkBinSurvives(op: Connective, left: Formula, right: Formula)
    ensures MkBin(op, left, right) == Bin(op, left, right) <==>
      !left.Const? && !right.Const? && left != right && left != MkNot(right)
  {
  }

  /** The smart binary constructor keeps the canonical form. */
  lemma MkBinCanonical(op: Connective, left: Formula, right: Formula)
    ensures Canonical(left) && Canonical(right) ==> Canonical(MkBin(op, left, right))
  {
  }

  /** Substitution of the constant `value` for the variable `x`, rebuilt
      bottom-up through the smart constructors. */
  function Subs(f: Formula, x: string, value: bool): (r: Formula)
    ensures f.Const? ==> r == f
    ensures f.Var? ==> (r == Const(value) <==> f.name == x)
    ensures f.Var? && f.name != x ==> r == f
    ensures Vars(r) <= Vars(f) - {x}
    ensures forall env :: Eval(r, env) == Eval(f, Assign(env, x, value))
  {
    match f
    case Const(_) => f
    case Var(y) => if y == x then Const(value) else f
    case Not(g) => MkNot(Subs(g, x, value))
    case Bin(op, l, r) => MkBin(op, Subs(l, x, value), Subs(r, x, value))
  }

  /** Substitution keeps the canonical form. */
  lemma {:induction false} SubsCanonical(f: Formula, x: string, value: bool)
    requires Canonical(f)
    ensures Canonical(Subs(f, x, value))
  {
    match f
    case Const(_) =>
    case Var(_) =>
    case Not(g) =>
      SubsCanonical(g, x, value);
      MkNotCanonical(Subs(g, x, value));
    case Bin(op, l, r) =>
      SubsCanonical(l, x, value);
      SubsCanonical(r, x, value);
      MkBinCanonical(op, Subs(l, x, value), Subs(r, x, value));
  }

  /** Substituting a variable that does not occur gives back the same canonical formula. */
  lemma {:induction false} SubsAbsent(f: Formula, x: string, value: bool)
    requires Canonical(f) && x !in Vars(f)
    ensures Subs(f, x, value) == f
  {
    match f
    case Const(_) =>
    case Var(_) =>
    case Not(g) =>
      SubsAbsent(g, x, value);
    case Bin(op, l, r) =>
      SubsAbsent(l, x, value);
      SubsAbsent(r, x, value);
  }

  /** Structural equality as the node classes define it: constants compare as
      integers, variables by name, negations by operand, binary nodes by
      connective and by both children in order. */
  predicate Equal(a: Formula, b: Formula)
  {
    match a
    case Const(x) => b.Const? && b.value == x
    case Var(n) => b.Var? && b.name == n
    case Not(g) => b.Not? && Equal(g, b.arg)
    case Bin(op, l, r) => b.Bin? && b.op == op && Equal(l, b.left) && Equal(r, b.right)
  }

  lemma {:induction false} EqualIsStructural(a: Formula, b: Formula)
    ensures Equal(a, b) <==> a == b
  {
    match a
    case Const(_) =>
    case Var(_) =>
    case Not(g) =>
      if b.Not? {
        EqualIsStructural(g, b.arg);
      }
    case Bin(op, l, r) =>
      if b.Bin? {
        EqualIsStructural(l, b.left);
        EqualIsStructural(r, b.right);
      }
  }

  /** A canonical formula that is not a constant mentions at least one variable,
      so a pivot for Shannon expansion always exists. */
  lemma {:induction false} NonConstantHasVariable(f: Formula)
    requires Canonical(f) && !f.Const?
    ensures Vars(f) != {}
  {
    match f
    case Var(_) =>
    case Not(g) =>
      NonConstantHasVariable(g);
    case Bin(_, l, _) =>
      NonConstantHasVariable(l);
  }

  /** The value of a formula depends only on the variables it mentions. */
  lemma {:induction false} EvalDependsOnlyOnVars(f: Formula, e1: Env, e2: Env)
    requires forall y :: y in Vars(f) ==> e1(y) == e2(y)
    ensures Eval(f, e1) == Eval(f, e2)
  {
    match f
    case Const(_) =>
    case Var(_) =>
    case Not(g) =>
      EvalDependsOnlyOnVars(g, e1, e2);
    case Bin(_, l, r) =>
      EvalDependsOnlyOnVars(l, e1, e2);
      EvalDependsOnlyOnVars(r, e1, e2);
  }

  /** Shannon expansion on `x`: a formula agrees with the substitution of the
      value `x` currently has. */
  lemma Shannon(f: Formula, x: string, env: Env)
    ensures Eval(f, env) == Eval(Subs(f, x, env(x)), env)
  {
  }

  /** The connectives' tables agree with conjunction, disjunction and implication. */
  lemma TablesAreConnectives(a: bool, b: bool)
    ensures Apply(Conj, a, b) == (a && b)
    ensures Apply(Disj, a, b) == (a || b)
    ensures Apply(Impl, a, b) == (!a || b)
  {
  }

  /** The simplifications expected of a non-constant operand and its negation. */
  lemma TrivialOperations(p: Formula)
    requires Canonical(p) && !p.Const?
    ensures MkBin(Disj, p, Const(true)) == Const(true)
    ensures MkBin(Disj, p, Const(false)) == p
    ensures MkBin(Disj, Const(true), p) == Const(true)
    ensures MkBin(Disj, Const(false), p) == p
    ensures MkBin(Conj, p, Const(true)) == p
    ensures MkBin(Conj, p, Const(false)) == Const(false)
    ensures MkBin(Conj, Const(true), p) == p
    ensures MkBin(Conj, Const(false), p) == Const(false)
    ensures MkBin(Impl, p, Const(true)) == Const(true)
    ensures MkBin(Impl, p, Const(false)) == MkNot(p)
    ensures MkBin(Impl, Const(true), p) == p
    ensures MkBin(Impl, Const(false), p) == Const(true)
    ensures MkBin(Disj, p, p) == p
    ensures MkBin(Conj, p, p) == p
    ensures MkBin(Disj, p, MkNot(p)) == Const(true)
    ensures MkBin(Conj, p, MkNot(p)) == Const(false)
    ensures MkBin(Impl, p, p) == Const(true)
    ensures MkBin(Impl, p, MkNot(p)) == MkNot(p)
  {
  }
}
