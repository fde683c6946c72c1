# Propositional formulas, CNF/DNF conversion and clause optimisation in Dafny

This project models the core of a small Python system for propositional
logic. The system has two parts.

- **Self-simplifying formula trees** (`bool_types.py`). A formula is a
  constant, a variable, a negation or a binary connective (`/\`, `\/`, `->`).
  Each connective is given only by a four-entry truth table, indexed
  `2*left + right`. The node constructors simplify as they build. A negated
  constant becomes the opposite constant. A double negation collapses. A binary
  node is replaced by a constant, by one operand or by that operand's negation
  when it has a constant operand or when its two operands are equal or
  complementary. Substitution of a constant for a variable rebuilds the tree
  through the same constructors.
- **Normal forms** (`convertation.py`). `to_CNF` and `to_DNF` apply Shannon
  expansion on a pivot variable. Each returns either a boolean or a set of
  clauses of literals. `optimize_clauses` then absorbs clauses using unit
  clauses and detects contradictions. With `recursive` set it repeats until a
  pass changes nothing.

Files:

- `formula.dfy`, module `Formulas`: the `Formula` datatype, the `Eval`
  semantics, the canonical-form invariant, the smart constructors `MkNot` and
  `MkBin`, substitution `Subs`, structural equality, and `Vars`
  (`extract_variables`).
- `normal_forms.dfy`, module `NormalForms`: literals (`Pos`/`Neg`), the
  `ClauseSet` result (`Constant(bool)` or `Clauses(set<set<Lit>>)`), the CNF
  and DNF readings of a clause set, and the converters `ToCnf` and `ToDnf`.
- `optimizer.dfy`, module `Optimizer`: one optimisation pass `Pass`, its
  iteration `Optimize`, and the two command-loop pipelines of `parser.py`.

Modelling choices:

- Python objects can only be built through the simplifying constructors, so
  every formula satisfies `Canonical`. The converters take that as their
  precondition. It is what guarantees that a non-constant formula has a
  variable to expand on (`convertation.py:14`).
- The pivot is chosen with `set.pop()`, so it is an arbitrary variable of the
  formula. `ToCnf` and `ToDnf` are methods that pick it with `:|`, and every
  property is proved for whichever variable is picked.
- The converters terminate because `Subs` removes the pivot and adds no
  variable. The measure is the formula's variable set.
- The optimiser terminates by a lexicographic measure: first the set of
  literals that occur, then the clause set. A pass that changes the set either
  deletes a refuted literal everywhere, or only drops clauses
  (`Optimizer.PassShrinks`).
- Truth assignments are total functions `string -> bool`.

## Model

| member | source | states |
|---|---|---|
| Formulas.MkNot | bool_types.py:68-76 | Negating a constant gives the opposite constant. Negating a negation returns its operand. Any other operand is wrapped in a negation node. Under every assignment the result is the negation of the operand, and it mentions the same variables. |
| Formulas.MkNotCanonical | bool_types.py:68-76 | Negation of a canonical formula is canonical: it never builds a negated constant or a double negation. |
| Formulas.NegationInvolution | bool_types.py:68-76 | For a canonical formula, negating twice gives back the same formula structurally (tests.py:29, 64). |
| Formulas.MkBin | bool_types.py:99-144 | Under every assignment the result is the connective's table entry for the operands' values. Two constant operands give the entry `truth_table[2*left+right]`. With one constant operand, the result is a constant when the two relevant entries agree; otherwise it is the other operand or its negation. Equal operands are decided by rows (F,F)/(T,T), complementary ones by rows (F,T)/(T,F), giving a constant, `left` or its negation. The result mentions no new variables. |
| Formulas.MkBinSurvives | bool_types.py:124-144 | The constructor returns the node `Bin(op, left, right)`, with the children in the given order, exactly when neither child is a constant and the children are neither equal nor complementary. |
| Formulas.MkBinCanonical | bool_types.py:105-144 | A binary node built from canonical operands is canonical: no surviving node has a constant child, or equal or complementary children. |
| Formulas.TablesAreConnectives | bool_types.py:161-173 | The three tables compute conjunction, disjunction and implication (tests.py:31-43). |
| Formulas.TrivialOperations | tests.py:68-88 | The expected simplifications of a non-constant operand with constants, with itself and with its negation, for all three connectives. |
| Formulas.Subs | bool_types.py:146-147 | Substitution leaves constants unchanged (lines 36-37). A variable becomes the constant exactly when it is the substituted variable (lines 47-51). Negations and binary nodes are rebuilt from substituted children (line 79). The result evaluates like the original under the assignment updated at that variable, and mentions neither the substituted variable nor any new one. |
| Formulas.SubsCanonical | bool_types.py:78-147 | Substitution into a canonical formula yields a canonical formula. Negations (lines 78-79) and binary nodes (lines 146-147) are rebuilt through their simplifying constructors, which keep the form. |
| Formulas.SubsAbsent | bool_types.py:146-147 | Substituting a variable that does not occur gives back the same canonical formula. |
| Formulas.EqualIsStructural | bool_types.py:149-152 | The node classes' `__eq__` is exactly structural equality. Variables are equal iff their names are (lines 56-62). Negations are equal iff their operands are (lines 81-84). Binary nodes are equal only for the same connective with pairwise-equal children in order. |
| Formulas.VarsAreLeaves | convertation.py:80-91 | `extract_variables` (`Vars`) returns exactly the names that occur on the formula's variable leaves: none for a constant, the variable itself, and the union over the children of a negation or binary node. |
| Formulas.NonConstantHasVariable | convertation.py:14 | A canonical formula that is not a constant has at least one variable, so a pivot exists. |
| Formulas.EvalDependsOnlyOnVars | convertation.py:80-91 | Two assignments that agree on the extracted variables give a formula the same value. |
| Formulas.Shannon | convertation.py:4-10 | A formula has the value of its substitution by the current value of any variable. |
| NormalForms.Complement | convertation.py:127 | The complement of a literal has the same variable and the opposite sign. |
| NormalForms.Lift | convertation.py:17-31 | The clauses one expansion branch contributes all carry the pivot literal. A constant sub-result contributes no clause exactly when it is the neutral constant (True for CNF, False for DNF, lines 55-69), and the unit clause of the pivot literal otherwise. Every clause of a clause-set sub-result reappears extended by the pivot literal, and no other clause does. |
| NormalForms.LiftCnf | convertation.py:17-31 | A CNF branch holds exactly when its pivot literal holds or the branch's sub-result holds. |
| NormalForms.LiftDnf | convertation.py:55-69 | A DNF branch holds exactly when its pivot literal and the branch's sub-result both hold. |
| NormalForms.Collapse | convertation.py:33-39 | The union of the two branches becomes a constant exactly when it is empty or the pair `{{v},{¬v}}` of the pivot `v`; otherwise it is returned unchanged. The empty set stands for the neutral constant (True for CNF, False for DNF, lines 71-77) and the pair for the other one. |
| NormalForms.CollapseCnf | convertation.py:33-39 | Collapsing the empty set to True and `{{v},{¬v}}` to False keeps the CNF meaning. |
| NormalForms.CollapseDnf | convertation.py:71-77 | Collapsing the empty set to False and `{{v},{¬v}}` to True keeps the DNF meaning. |
| NormalForms.LiftShape | convertation.py:17-31 | Every clause of a branch contains the pivot literal, mentions each variable once, and draws its variables from the formula. |
| NormalForms.CollapseShape | convertation.py:33-39 | After collapse, a clause-set result is neither empty nor a complementary pair of unit clauses. |
| NormalForms.ExpandCnf | convertation.py:17-39 | One expansion step of `to_CNF`: when the two branches mean the formula with the pivot set to False and to True, the collapsed union of the lifted branches means the formula under every assignment. |
| NormalForms.ExpandDnf | convertation.py:55-77 | One expansion step of `to_DNF`: when the two branches mean the formula with the pivot set to True and to False, the collapsed union of the lifted branches means the formula under every assignment. |
| NormalForms.ExpandShape | convertation.py:17-39 | One expansion step keeps the shape: if the branches' clauses are non-empty, consistent and free of the pivot, the result is non-degenerate and its clauses are non-empty, consistent and over the formula's variables. |
| NormalForms.ToCnf | convertation.py:4-39 | A constant formula gives the matching boolean. Read as an AND of ORs, the result equals the formula under every assignment. A clause-set result is never empty and never `{{v},{¬v}}` for any `v`. Its clauses are non-empty, never mention a variable twice, and use only the formula's variables. |
| NormalForms.ToDnf | convertation.py:42-77 | A constant formula gives the matching boolean. Read as an OR of ANDs, the result equals the formula under every assignment. The clause-set result has the same shape guarantees as for CNF. |
| NormalForms.SingleVariableCnf | convertation.py:14-39 | The CNF of a lone variable `x` is the single unit clause `{x}`. This follows from the converter's equivalence and shape guarantees alone. |
| NormalForms.NegatedVariableDnf | convertation.py:52-77 | The DNF of `~x` is the single unit clause `{~x}`. This also follows from the converter's guarantees alone. |
| Optimizer.ForcedIsUnits | convertation.py:126 | A literal is in the union of the unit clauses exactly when it is itself a unit clause. |
| Optimizer.RefutedIsComplementOfForced | convertation.py:127 | A literal is among the negated unit literals exactly when its complement is a unit literal. |
| Optimizer.Pass | convertation.py:123-139 | An empty input gives `default_value`. With no unit clauses a non-empty input is returned unchanged. Contradicting unit clauses, or a clause emptied of refuted literals, give `default_value`. A clause-set result is never empty, and the only constant a pass returns is `default_value`. |
| Optimizer.PassShape | convertation.py:123-137 | After one pass, unit clauses are kept. Non-unit clauses containing a unit literal are gone. Every other clause appears minus exactly the literals whose negation is a unit. Nothing else is in the result. |
| Optimizer.ComplementaryUnits | convertation.py:126-129 | Two unit clauses `{l}` and `{¬l}` make the pass return `default_value`. |
| Optimizer.PassLiterals | convertation.py:131-137 | A pass introduces no literal. |
| Optimizer.PassShrinks | convertation.py:140-143 | A pass that changes the set removes some literal from it altogether, or keeps a strict subset of its clauses: the iteration terminates. |
| Optimizer.OptimizeSet | convertation.py:123-143 | Without `recursive` the result is one pass. With it, the result is a fixed point: one more pass returns it unchanged. The result uses no new literal and is never an empty clause set. A constant result is always `default_value` (lines 116-118). |
| Optimizer.Optimize | convertation.py:114-143 | A boolean passes through. An empty set gives `default_value`. A non-empty set without unit clauses is returned unchanged. Contradicting units or an emptied clause give `default_value`. Without `recursive` it is a single pass. With it, the result is a fixed point of a pass. A clause-set input only ever yields the constant `default_value` (lines 116-118). |
| Optimizer.OptimizeIdempotent | convertation.py:140-143 | Optimising an already optimised result with `recursive` set changes nothing. |
| Optimizer.ConflictDecides | convertation.py:128-129 | Contradicting unit clauses make the set unsatisfiable as a CNF and valid as a DNF, which is what `default_value` False or True stands for. |
| Optimizer.EmptiedDecides | convertation.py:131-137 | A clause emptied of refuted literals makes the set unsatisfiable as a CNF and valid as a DNF. |
| Optimizer.CnfReducedEquivalent | convertation.py:131-137 | Read as a CNF, the unit clauses together with the reduced clauses mean what the input means. |
| Optimizer.DnfReducedEquivalent | convertation.py:131-137 | Read as a DNF, the unit clauses together with the reduced clauses mean what the input means. |
| Optimizer.PassCnfEquivalent | convertation.py:120-139 | One pass with `default_value` False keeps the CNF meaning of a non-empty set under every assignment. |
| Optimizer.PassDnfEquivalent | convertation.py:120-139 | One pass with `default_value` True keeps the DNF meaning of a non-empty set under every assignment. |
| Optimizer.OptimizeCnfEquivalent | convertation.py:114-143 | Optimising a non-empty CNF with `default_value` False, with or without `recursive`, keeps its meaning. |
| Optimizer.OptimizeDnfEquivalent | convertation.py:114-143 | Optimising a non-empty DNF with `default_value` True, with or without `recursive`, keeps its meaning. |
| Optimizer.CnfOf | parser.py:20 | The command loop's CNF output, `optimize_clauses(to_CNF(f), False)`, is equivalent to the formula. |
| Optimizer.DnfOf | parser.py:19 | The command loop's DNF output, `optimize_clauses(to_DNF(f), True)`, is equivalent to the formula. |

## Left out

- Lexer and grammar (`token_definitions.py`, `parser.py`) are left out. They are driven by the PLY parser library. The interactive `input()`/`print` loop is I/O. Only the two pipelines of `parser.py:19-20` are modelled, without printing.
- Exception classes (`exceptions.py`) are left out: they only format messages.
- `cnf_to_string` and `dnf_to_string` are left out: their clause order depends on set iteration (`convertation.py:94-111`). Every `__repr__` is left out as string rendering only.
- `__hash__`, the operator sugar (`~`, `&`, `|`, `>>`) and the `int` subclassing of `CustomBool` are left out. Dafny's datatype constructors, datatype equality and `bool` take their place.
- The `default_value=None` default of `optimize_clauses` is left out: `default` is a required `bool`. So is the `isinstance(clauses, bool)` test that would not catch a `CustomBool`: every constant is `Constant(b)`.
- The `recursive=True` default of `optimize_clauses` (`convertation.py:114`) is left out: `recursive` is a required `bool`, and both values are modelled.
- Non-formula input is left out: the Dafny types rule it out; the source does not check for it.
- Exact clause sets are not stated in general: for formulas with two or more variables they depend on which variable `pop()` returns (`convertation.py:15`, `53`). Only the one-variable cases are fixed (`NormalForms.SingleVariableCnf`, `NormalForms.NegatedVariableDnf`).
- Optimizer.OptimizeCnfEquivalent: stated for non-empty clause sets only. For an empty input the code returns `default_value`, which means the empty set is treated as degenerate rather than as an empty conjunction. The converters never return an empty set (`NormalForms.ToCnf`).
- Optimizer.OptimizeDnfEquivalent: stated for non-empty clause sets only, for the same reason.
- Optimizer.PassShrinks: termination is shown with the measure (literals occurring, clause set) rather than the total literal count. Both decrease whenever a pass changes the set.
