/** Separator formulas of objects/Formula.py: an atom compares a·m with
    ap·m' (strictly or not), a clause is a conjunction of atoms, and a formula
    is a disjunction of clauses, read over a pair of markings (m, m'). The
    meaning is given once, on plain sequences (`Conj`, `Disj`), and the
    objects of the file are related to it. */
module Formulas {

  import opened Vectors
  import opened Results
  import opened Text
  import PetriNet

  datatype Atom = Atom(a: seq<real>, ap: seq<real>, strict: bool)

  /** The atom's coefficient vectors match the two markings it is read on. */
  predicate Fits(at: Atom, m: seq<real>, mp: seq<real>) {
    |at.a| == |m| && |at.ap| == |mp|
  }

  /** `Atom.check(m, mp)`: a·m < ap·mp for a strict atom, a·m <= ap·mp otherwise. */
  predicate AtomHolds(at: Atom, m: seq<real>, mp: seq<real>)
    requires Fits(at, m, mp)
  {
    if at.strict then Dot(at.a, m) < Dot(at.ap, mp) else Dot(at.a, m) <= Dot(at.ap, mp)
  }

  /** A strict atom implies its non-strict twin. */
  lemma StrictImpliesNonStrict(at: Atom, m: seq<real>, mp: seq<real>)
    requires Fits(at, m, mp) && at.strict && AtomHolds(at, m, mp)
    ensures AtomHolds(at.(strict := false), m, mp)
  {
  }

  predicate AllFit(atoms: seq<Atom>, m: seq<real>, mp: seq<real>) {
    forall k | 0 <= k < |atoms| :: Fits(atoms[k], m, mp)
  }

  predicate ClausesFit(clauses: seq<seq<Atom>>, m: seq<real>, mp: seq<real>) {
    forall k | 0 <= k < |clauses| :: AllFit(clauses[k], m, mp)
  }

  /** A conjunction of atoms holds when every atom holds; the empty one always holds. */
  predicate Conj(atoms: seq<Atom>, m: seq<real>, mp: seq<real>)
    requires AllFit(atoms, m, mp)
  {
    forall k | 0 <= k < |atoms| :: AtomHolds(atoms[k], m, mp)
  }

  /** A disjunction of clauses holds when some clause holds; the empty one never holds. */
  predicate Disj(clauses: seq<seq<Atom>>, m: seq<real>, mp: seq<real>)
    requires ClausesFit(clauses, m, mp)
  {
    exists k | 0 <= k < |clauses| :: Conj(clauses[k], m, mp)
  }

  lemma ConjAppend(xs: seq<Atom>, ys: seq<Atom>, m: seq<real>, mp: seq<real>)
    requires AllFit(xs, m, mp) && AllFit(ys, m, mp)
    ensures AllFit(xs + ys, m, mp)
    ensures Conj(xs + ys, m, mp) <==> Conj(xs, m, mp) && Conj(ys, m, mp)
  {
    assert forall k | 0 <= k < |ys| :: (xs + ys)[|xs| + k] == ys[k];
    if Conj(xs, m, mp) && Conj(ys, m, mp) {
      forall k | 0 <= k < |xs + ys|
        ensures AtomHolds((xs + ys)[k], m, mp)
      {
        if k >= |xs| {
          assert (xs + ys)[k] == ys[k - |xs|];
        }
      }
    }
    if Conj(xs + ys, m, mp) {
      forall k | 0 <= k < |ys|
        ensures AtomHolds(ys[k], m, mp)
      {
        assert AtomHolds((xs + ys)[|xs| + k], m, mp);
      }
      forall k | 0 <= k < |xs|
        ensures AtomHolds(xs[k], m, mp)
      {
        assert AtomHolds((xs + ys)[k], m, mp);
      }
    }
  }

  lemma DisjAppend(xs: seq<seq<Atom>>, ys: seq<seq<Atom>>, m: seq<real>, mp: seq<real>)
    requires ClausesFit(xs, m, mp) && ClausesFit(ys, m, mp)
    ensures ClausesFit(xs + ys, m, mp)
    ensures Disj(xs + ys, m, mp) <==> Disj(xs, m, mp) || Disj(ys, m, mp)
  {
    assert forall k | 0 <= k < |ys| :: (xs + ys)[|xs| + k] == ys[k];
    if Disj(xs + ys, m, mp) {
      var k :| 0 <= k < |xs + ys| && Conj((xs + ys)[k], m, mp);
      if k >= |xs| {
        assert Conj(ys[k - |xs|], m, mp);
      } else {
        assert Conj(xs[k], m, mp);
      }
    }
    if Disj(xs, m, mp) {
      var k :| 0 <= k < |xs| && Conj(xs[k], m, mp);
      assert Conj((xs + ys)[k], m, mp);
    }
    if Disj(ys, m, mp) {
      var k :| 0 <= k < |ys| && Conj(ys[k], m, mp);
      assert Conj((xs + ys)[|xs| + k], m, mp);
    }
  }

  // ---------------------------------------------------------------------------
  // The objects of objects/Formula.py

  /** The syndrome maps belong to implication checkers that are not part of
      this model; only their emptiness at construction is recorded. */
  type Syndrome = map<nat, seq<real>>

  datatype Clause = Clause(size: nat, id: int, atoms: seq<Atom>,
                           forwardSyndrome: Syndrome, forwardSyndromeIH: Option<seq<real>>,
                           backwardSyndrome: Syndrome, backwardSyndromeIH: Option<seq<real>>)

  datatype Formula = Formula(size: nat, clauses: seq<Clause>, net: PetriNet.Net)

  /** A clause whose recorded size is its number of atoms. */
  predicate ClauseSized(c: Clause) {
    c.size == |c.atoms|
  }

  /** A formula whose recorded size is its number of clauses. */
  predicate FormulaSized(f: Formula) {
    f.size == |f.clauses|
  }

  /** `Clause(atoms, id)`: sized, with both syndromes empty and no induction hypotheses. */
  function NewClause(atoms: seq<Atom>, id: int): (c: Clause)
    ensures ClauseSized(c) && c.atoms == atoms && c.id == id
    ensures c.forwardSyndrome == map[] && c.backwardSyndrome == map[]
    ensures c.forwardSyndromeIH == None && c.backwardSyndromeIH == None
  {
    Clause(|atoms|, id, atoms, map[], None, map[], None)
  }

  /** `Clause.addAtom(atom)`: appends at the end and keeps the size right. */
  function AddAtom(c: Clause, atom: Atom): (r: Clause)
    ensures r.atoms == c.atoms + [atom] && r.atoms[..|c.atoms|] == c.atoms
    ensures r.size == c.size + 1 && (ClauseSized(c) ==> ClauseSized(r))
    ensures r.(size := c.size, atoms := c.atoms) == c
  {
    c.(atoms := c.atoms + [atom], size := c.size + 1)
  }

  /** Adding an atom conjoins it to the clause. */
  lemma AddAtomConjoins(c: Clause, atom: Atom, m: seq<real>, mp: seq<real>)
    requires AllFit(c.atoms, m, mp) && Fits(atom, m, mp)
    ensures AllFit(AddAtom(c, atom).atoms, m, mp)
    ensures Conj(AddAtom(c, atom).atoms, m, mp) <==> Conj(c.atoms, m, mp) && AtomHolds(atom, m, mp)
  {
    ConjAppend(c.atoms, [atom], m, mp);
    assert Conj([atom], m, mp) <==> AtomHolds([atom][0], m, mp);
  }

  /** `Clause.check(m, mp)`: scans the atoms and stops at the first false one. */
  method CheckClause(c: Clause, m: seq<real>, mp: seq<real>) returns (r: bool)
    requires AllFit(c.atoms, m, mp)
    ensures r <==> Conj(c.atoms, m, mp)
  {
    var k := 0;
    while k < |c.atoms|
      invariant 0 <= k <= |c.atoms|
      invariant forall i | 0 <= i < k :: AtomHolds(c.atoms[i], m, mp)
    {
      if !AtomHolds(c.atoms[k], m, mp) {
        return false;
      }
      k := k + 1;
    }
    return true;
  }

  /** `Formula(net, clauses)`. */
  function NewFormula(net: PetriNet.Net, clauses: seq<Clause>): (f: Formula)
    ensures FormulaSized(f) && f.clauses == clauses && f.net == net
  {
    Formula(|clauses|, clauses, net)
  }

  /** `Formula.addClause(clause)`: appends at the end and keeps the size right. */
  function AddClause(f: Formula, clause: Clause): (r: Formula)
    ensures r.clauses == f.clauses + [clause] && r.clauses[..|f.clauses|] == f.clauses
    ensures r.size == f.size + 1 && (FormulaSized(f) ==> FormulaSized(r))
    ensures r.net == f.net
  {
    f.(clauses := f.clauses + [clause], size := f.size + 1)
  }

  /** The atoms of each clause, in order. */
  function AtomLists(clauses: seq<Clause>): (r: seq<seq<Atom>>)
    ensures |r| == |clauses| && forall k | 0 <= k < |clauses| :: r[k] == clauses[k].atoms
  {
    seq(|clauses|, k requires 0 <= k < |clauses| => clauses[k].atoms)
  }

  /** Adding a clause disjoins it to the formula. */
  lemma AddClauseDisjoins(f: Formula, clause: Clause, m: seq<real>, mp: seq<real>)
    requires ClausesFit(AtomLists(f.clauses), m, mp) && AllFit(clause.atoms, m, mp)
    ensures ClausesFit(AtomLists(AddClause(f, clause).clauses), m, mp)
    ensures Disj(AtomLists(AddClause(f, clause).clauses), m, mp) <==>
      Disj(AtomLists(f.clauses), m, mp) || Conj(clause.atoms, m, mp)
  {
    assert AtomLists(f.clauses + [clause]) == AtomLists(f.clauses) + [clause.atoms];
    DisjAppend(AtomLists(f.clauses), [clause.atoms], m, mp);
    if Disj([clause.atoms], m, mp) {
      assert Conj([clause.atoms][0], m, mp);
    }
    if Conj(clause.atoms, m, mp) {
      assert Disj([clause.atoms], m, mp) by { assert Conj([clause.atoms][0], m, mp); }
    }
  }

  /** `Formula.check(m, mp)`: scans the clauses and stops at the first true one. */
  method CheckFormula(f: Formula, m: seq<real>, mp: seq<real>) returns (r: bool)
    requires ClausesFit(AtomLists(f.clauses), m, mp)
    ensures r <==> Disj(AtomLists(f.clauses), m, mp)
  {
    var k := 0;
    while k < |f.clauses|
      invariant 0 <= k <= |f.clauses|
      invariant forall i | 0 <= i < k :: !Conj(f.clauses[i].atoms, m, mp)
    {
      assert AllFit(AtomLists(f.clauses)[k], m, mp);
      var holds := CheckClause(f.clauses[k], m, mp);
      if holds {
        assert Conj(AtomLists(f.clauses)[k], m, mp);
        return true;
      }
      k := k + 1;
    }
    assert forall i | 0 <= i < |f.clauses| :: AtomLists(f.clauses)[i] == f.clauses[i].atoms;
    return false;
  }

  // ---------------------------------------------------------------------------
  // `Formula.getSize`

  /** `str(clause.size) + ","` for each clause, concatenated. */
  function SizeList(clauses: seq<Clause>): string {
    if clauses == [] then "" else NatToString(clauses[0].size) + "," + SizeList(clauses[1..])
  }

  /** The decimal renderings of the clause sizes. */
  function SizeStrings(clauses: seq<Clause>): (r: seq<string>)
    ensures |r| == |clauses| && forall k | 0 <= k < |clauses| :: r[k] == NatToString(clauses[k].size)
  {
    seq(|clauses|, k requires 0 <= k < |clauses| => NatToString(clauses[k].size))
  }

  lemma {:induction false} SizeListIsJoin(clauses: seq<Clause>)
    requires clauses != []
    ensures SizeList(clauses) == Join(SizeStrings(clauses), ",") + ","
    decreases |clauses|
  {
    if |clauses| > 1 {
      SizeListIsJoin(clauses[1..]);
      assert SizeStrings(clauses)[1..] == SizeStrings(clauses[1..]);
    }
  }

  /** `Formula.getSize()`: the formula's size, then the clause sizes between
      parentheses separated by commas. The code drops the last character before
      closing, which is the trailing comma when there are clauses and the
      opening parenthesis when there are none. */
  function GetSize(f: Formula): (r: string)
    ensures |f.clauses| > 0 ==> r == NatToString(f.size) + "(" + Join(SizeStrings(f.clauses), ",") + ")"
    ensures |f.clauses| == 0 ==> r == NatToString(f.size) + ")"
  {
    var text := NatToString(f.size) + "(" + SizeList(f.clauses);
    if |f.clauses| > 0 then
      SizeListIsJoin(f.clauses);
      assert text[..|text| - 1] == NatToString(f.size) + "(" + Join(SizeStrings(f.clauses), ",");
      text[..|text| - 1] + ")"
    else
      text[..|text| - 1] + ")"
  }
}
