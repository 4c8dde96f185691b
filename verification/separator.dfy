/** The size-bookkept containers of objects/Separator.py: a clause is a list
    of atoms and a formula a list of clauses, each carrying its own length in
    `size`. The atoms are those of objects/Formula.py. */
module SeparatorObjects {

  import Formulas

  datatype Clause = Clause(size: nat, atoms: seq<Formulas.Atom>)

  datatype Formula = Formula(size: nat, clauses: seq<Clause>)

  /** The recorded size is the number of atoms. */
  predicate ClauseSized(c: Clause) {
    c.size == |c.atoms|
  }

  /** The recorded size is the number of clauses. */
  predicate FormulaSized(f: Formula) {
    f.size == |f.clauses|
  }

  /** `Clause(atoms)`. */
  function NewClause(atoms: seq<Formulas.Atom>): (c: Clause)
    ensures ClauseSized(c) && c.atoms == atoms
  {
    Clause(|atoms|, atoms)
  }

  /** `Clause.addAtom(atom)`: the atom goes last, the earlier ones stay, and a
      sized clause stays sized. */
  function AddAtom(c: Clause, atom: Formulas.Atom): (r: Clause)
    ensures |r.atoms| == |c.atoms| + 1 && r.atoms[|c.atoms|] == atom && r.atoms[..|c.atoms|] == c.atoms
    ensures r.size == c.size + 1 && (ClauseSized(c) ==> ClauseSized(r))
  {
    Clause(c.size + 1, c.atoms + [atom])
  }

  /** `Formula(clauses)`. */
  function NewFormula(clauses: seq<Clause>): (f: Formula)
    ensures FormulaSized(f) && f.clauses == clauses
  {
    Formula(|clauses|, clauses)
  }

  /** `Formula.addClause(clause)`: the clause goes last, the earlier ones stay,
      and a sized formula stays sized. */
  function AddClause(f: Formula, clause: Clause): (r: Formula)
    ensures |r.clauses| == |f.clauses| + 1 && r.clauses[|f.clauses|] == clause && r.clauses[..|f.clauses|] == f.clauses
    ensures r.size == f.size + 1 && (FormulaSized(f) ==> FormulaSized(r))
  {
    Formula(f.size + 1, f.clauses + [clause])
  }

  /** Any sequence of additions to a freshly built clause keeps it sized, and
      the atoms end up in the order they were given. */
  lemma {:induction false} AddAtomsKeepSize(c: Clause, atoms: seq<Formulas.Atom>)
    requires ClauseSized(c)
    ensures ClauseSized(AddAtoms(c, atoms)) && AddAtoms(c, atoms).atoms == c.atoms + atoms
    decreases |atoms|
  {
    if atoms != [] {
      AddAtomsKeepSize(AddAtom(c, atoms[0]), atoms[1..]);
      assert c.atoms + [atoms[0]] + atoms[1..] == c.atoms + atoms;
    }
  }

  /** `addAtom` applied to each atom in turn. */
  function AddAtoms(c: Clause, atoms: seq<Formulas.Atom>): Clause
    decreases |atoms|
  {
    if atoms == [] then c else AddAtoms(AddAtom(c, atoms[0]), atoms[1..])
  }
}
