/** One level of `locallyClosedBiSeparator` (tasks/separators.py). The z3
    queries are replaced by their answers: whether the system X is
    unsatisfiable, the witness `yempty`, the set Up of transitions that some
    solution of X uses, and one witness y per transition of U minus Up, each
    given with the constraint the solver guarantees. The recursive result psi
    is an input of the final assembly. A formula here is a plain sequence of
    clauses, each a sequence of atoms, read with `Formulas.Disj`. */
module BiSeparator {

  import opened Vectors
  import opened Formulas
  import opened PetriNet
  import SiphonsTraps

  type Clauses = seq<seq<Atom>>

  /** Every atom of the formula has coefficient vectors of length n. */
  predicate Shaped(phi: Clauses, n: nat) {
    forall k, j | 0 <= k < |phi| && 0 <= j < |phi[k]| :: |phi[k][j].a| == n && |phi[k][j].ap| == n
  }

  /** The formula is read on (m, mp) and holds there. */
  predicate Sat(phi: Clauses, m: seq<real>, mp: seq<real>) {
    ClausesFit(phi, m, mp) && Disj(phi, m, mp)
  }

  /** phi is false on (msrc, mtgt). */
  predicate Separates(phi: Clauses, msrc: seq<real>, mtgt: seq<real>) {
    Shaped(phi, |msrc|) && |msrc| == |mtgt| && !Sat(phi, msrc, mtgt)
  }

  /** phi holds on every pair (m, m) of markings of n places. */
  ghost predicate Reflexive(phi: Clauses, n: nat) {
    Shaped(phi, n) && forall m: seq<real> | |m| == n :: Sat(phi, m, m)
  }

  lemma ShapedFits(phi: Clauses, m: seq<real>, mp: seq<real>)
    requires Shaped(phi, |m|) && |m| == |mp|
    ensures ClausesFit(phi, m, mp)
  {
  }

  /** A witness of the dual system Y: y·(mtgt − msrc) <= 0, i.e. y·mtgt <= y·msrc. */
  predicate YWitness(y: seq<real>, msrc: seq<real>, mtgt: seq<real>) {
    |y| == |msrc| == |mtgt| && Dot(Sub(mtgt, msrc), y) <= 0.0
  }

  /** The witness `yempty` used when X has no solution: y·(mtgt − msrc) < 0. */
  predicate StrictYWitness(y: seq<real>, msrc: seq<real>, mtgt: seq<real>) {
    |y| == |msrc| == |mtgt| && Dot(Sub(mtgt, msrc), y) < 0.0
  }

  lemma WitnessDots(y: seq<real>, msrc: seq<real>, mtgt: seq<real>)
    requires |y| == |msrc| == |mtgt|
    ensures Dot(Sub(mtgt, msrc), y) == Dot(y, mtgt) - Dot(y, msrc)
  {
    DotSub(mtgt, msrc, y);
    DotComm(mtgt, y);
    DotComm(msrc, y);
  }

  /** With exact values the early exit of case 1 is never taken. Case 1 runs
      only when X has a solution x: non-negative, zero outside U, with
      F·x = mtgt − msrc. Every witness y of Y has (Fᵀ·y)[u] >= 0 for u in U.
      Then (mtgt − msrc)·y = x·(Fᵀ·y) >= 0, so y·msrc > y·mtgt never holds,
      and with the witness's own constraint the two products are equal. */
  lemma {:induction false} Case1ExitUnreachable(F: seq<seq<real>>, t: nat, U: set<nat>, x: seq<real>,
                                                y: seq<real>, msrc: seq<real>, mtgt: seq<real>)
    requires IsMatrix(F, t) && |x| == t && |y| == |F| == |msrc| == |mtgt|
    requires NonNegative(x) && MatVec(F, t, x) == Sub(mtgt, msrc)
    requires forall j | 0 <= j < t && j !in U :: x[j] == 0.0
    requires forall j | 0 <= j < t && j in U :: Dot(Column(F, t, j), y) >= 0.0
    ensures Dot(y, msrc) <= Dot(y, mtgt)
    ensures YWitness(y, msrc, mtgt) ==> Dot(y, msrc) == Dot(y, mtgt)
  {
    var c := TransposeVec(F, t, y);
    TransposeVecColumns(F, t, y);
    forall j | 0 <= j < t
      ensures x[j] * c[j] >= 0.0
    {
      if j in U {
        assert c[j] >= 0.0 && x[j] >= 0.0;
      }
    }
    DotTermsNonNegative(x, c);
    DotTranspose(F, t, x, y);
    WitnessDots(y, msrc, mtgt);
  }

  /** A single-atom clause holds exactly when its atom does. */
  lemma SingleAtom(at: Atom, m: seq<real>, mp: seq<real>)
    requires Fits(at, m, mp)
    ensures AllFit([at], m, mp) && (Conj([at], m, mp) <==> AtomHolds(at, m, mp))
  {
    assert [at][0] == at;
  }

  /** A single-clause formula holds exactly when its clause does. */
  lemma SingleClause(c: seq<Atom>, m: seq<real>, mp: seq<real>)
    requires AllFit(c, m, mp)
    ensures ClausesFit([c], m, mp) && (Disj([c], m, mp) <==> Conj(c, m, mp))
  {
    assert [c][0] == c;
  }

  // ---------------------------------------------------------------------------
  // Base case: U is empty

  /** The sign `copysign(1, msrc[p] - mtgt[p])` for differing entries. */
  function Sign(x: real): real {
    if x > 0.0 then 1.0 else -1.0
  }

  /** The base case (tasks/separators.py:115-123): at the first place p where
      the markings differ, a = sign(msrc[p] − mtgt[p])·e_p, and the answer is
      the single clause a·m <= a·m'. The source reads msrc[p] before checking
      p against the number of places, so equal markings are excluded. */
  method BaseCase(n: nat, msrc: seq<real>, mtgt: seq<real>) returns (phi: Clauses, p: nat)
    requires |msrc| == |mtgt| == n && msrc != mtgt
    ensures p < n && msrc[p] != mtgt[p] && forall i | 0 <= i < p :: msrc[i] == mtgt[i]
    ensures phi == [[Atom(Unit(n, p, Sign(msrc[p] - mtgt[p])), Unit(n, p, Sign(msrc[p] - mtgt[p])), false)]]
    ensures Separates(phi, msrc, mtgt) && Reflexive(phi, n)
  {
    assert exists i | 0 <= i < n :: msrc[i] != mtgt[i];
    p := 0;
    while msrc[p] == mtgt[p] && p < n
      invariant 0 <= p < n && forall i | 0 <= i < p :: msrc[i] == mtgt[i]
      invariant exists i | p <= i < n :: msrc[i] != mtgt[i]
      decreases n - p
    {
      p := p + 1;
    }
    var a := Unit(n, p, Sign(msrc[p] - mtgt[p]));
    phi := [[Atom(a, a, false)]];
    DotUnit(n, p, Sign(msrc[p] - mtgt[p]), msrc);
    DotUnit(n, p, Sign(msrc[p] - mtgt[p]), mtgt);
    SingleAtom(Atom(a, a, false), msrc, mtgt);
    SingleClause([Atom(a, a, false)], msrc, mtgt);
    assert Shaped(phi, n);
    forall m: seq<real> | |m| == n
      ensures Sat(phi, m, m)
    {
      SingleAtom(Atom(a, a, false), m, m);
      SingleClause([Atom(a, a, false)], m, m);
    }
    assert Reflexive(phi, n);
    assert !Sat(phi, msrc, mtgt);
  }

  /** The answer when X has no solution (tasks/separators.py:148-154): the
      single clause yempty·m <= yempty·m'. */
  function UnsatCase(yempty: seq<real>, msrc: seq<real>, mtgt: seq<real>): (phi: Clauses)
    requires StrictYWitness(yempty, msrc, mtgt)
    ensures phi == [[Atom(yempty, yempty, false)]]
    ensures Separates(phi, msrc, mtgt) && Reflexive(phi, |msrc|)
  {
    var phi := [[Atom(yempty, yempty, false)]];
    WitnessDots(yempty, msrc, mtgt);
    SingleAtom(Atom(yempty, yempty, false), msrc, mtgt);
    SingleClause([Atom(yempty, yempty, false)], msrc, mtgt);
    ReflexiveSingle(yempty);
    phi
  }

  /** The clause y·m <= y·m' holds on every (m, m). */
  lemma ReflexiveSingle(y: seq<real>)
    ensures Reflexive([[Atom(y, y, false)]], |y|)
  {
    forall m: seq<real> | |m| == |y|
      ensures Sat([[Atom(y, y, false)]], m, m)
    {
      SingleAtom(Atom(y, y, false), m, m);
      SingleClause([Atom(y, y, false)], m, m);
    }
  }

  // ---------------------------------------------------------------------------
  // Case 1: the witnesses for the transitions of U minus Up

  /** The early answer as written (tasks/separators.py:174-177): the strict
      clause y·m < y·m'. */
  function EarlyClauseAsWritten(y: seq<real>): Clauses {
    [[Atom(y, y, true)]]
  }

  /** The early answer as written separates, but holds on no pair (m, m), so
      it is not a bi-separator: already (0, 0) falsifies it. */
  lemma EarlyClauseAsWrittenIsNotReflexive(y: seq<real>, m: seq<real>)
    requires |m| == |y|
    ensures !Sat(EarlyClauseAsWritten(y), m, m)
    ensures !Reflexive(EarlyClauseAsWritten(y), |y|)
  {
    SingleAtom(Atom(y, y, true), m, m);
    SingleClause([Atom(y, y, true)], m, m);
  }

  /** The early answer, corrected to the non-strict clause y·m <= y·m' (the
      atom the code records in phi_inv for the same witness). When
      y·msrc > y·mtgt it separates, and it holds on every (m, m). */
  function EarlyClause(y: seq<real>, msrc: seq<real>, mtgt: seq<real>): (phi: Clauses)
    requires |y| == |msrc| == |mtgt| && Dot(y, msrc) > Dot(y, mtgt)
    ensures |phi| == 1 && |phi[0]| == 1 && phi[0][0] == Atom(y, y, false)
    ensures Separates(phi, msrc, mtgt) && Reflexive(phi, |y|)
  {
    var phi := [[Atom(y, y, false)]];
    SingleAtom(Atom(y, y, false), msrc, mtgt);
    SingleClause([Atom(y, y, false)], msrc, mtgt);
    ReflexiveSingle(y);
    phi
  }

  /** The strict singleton clauses of case 1, one per witness. */
  function Case1Clauses(ys: seq<seq<real>>): (r: Clauses)
    ensures |r| == |ys| && forall k | 0 <= k < |ys| :: r[k] == [Atom(ys[k], ys[k], true)]
  {
    seq(|ys|, k requires 0 <= k < |ys| => [Atom(ys[k], ys[k], true)])
  }

  /** phi_inv: the non-strict atom of each witness. */
  function Invariants(ys: seq<seq<real>>): (r: seq<Atom>)
    ensures |r| == |ys| && forall k | 0 <= k < |ys| :: r[k] == Atom(ys[k], ys[k], false)
  {
    seq(|ys|, k requires 0 <= k < |ys| => Atom(ys[k], ys[k], false))
  }

  datatype Case1Result = Early(phi: Clauses) | Continue(case1: Clauses, phiInv: seq<Atom>)

  /** The loop over U minus Up (tasks/separators.py:164-177), with the witness
      of the k-th transition given as ys[k]. It stops at the first witness with
      y·msrc > y·mtgt and answers with the corrected early clause; otherwise it
      returns the strict singletons and phi_inv, and every witness then has
      y·msrc <= y·mtgt. */
  method Case1(ys: seq<seq<real>>, msrc: seq<real>, mtgt: seq<real>) returns (r: Case1Result)
    requires |msrc| == |mtgt| && forall k | 0 <= k < |ys| :: |ys[k]| == |msrc|
    ensures r.Early? ==> exists k | 0 <= k < |ys| :: && Dot(ys[k], msrc) > Dot(ys[k], mtgt)
                                                     && |r.phi| == 1 && |r.phi[0]| == 1 && r.phi[0][0] == Atom(ys[k], ys[k], false)
                                                     && forall i | 0 <= i < k :: Dot(ys[i], msrc) <= Dot(ys[i], mtgt)
    ensures r.Early? ==> Separates(r.phi, msrc, mtgt) && Reflexive(r.phi, |msrc|)
    ensures r.Continue? <==> forall k | 0 <= k < |ys| :: Dot(ys[k], msrc) <= Dot(ys[k], mtgt)
    ensures r.Continue? ==> r.case1 == Case1Clauses(ys) && r.phiInv == Invariants(ys)
  {
    var case1: Clauses := [];
    var phiInv: seq<Atom> := [];
    var k := 0;
    while k < |ys|
      invariant 0 <= k <= |ys|
      invariant case1 == Case1Clauses(ys[..k]) && phiInv == Invariants(ys[..k])
      invariant forall i | 0 <= i < k :: Dot(ys[i], msrc) <= Dot(ys[i], mtgt)
    {
      var y := ys[k];
      phiInv := phiInv + [Atom(y, y, false)];
      case1 := case1 + [[Atom(y, y, true)]];
      if Dot(y, msrc) > Dot(y, mtgt) {
        return Early(EarlyClause(y, msrc, mtgt));
      }
      assert ys[..k + 1] == ys[..k] + [y];
      k := k + 1;
    }
    assert ys[..k] == ys;
    return Continue(case1, phiInv);
  }

  // ---------------------------------------------------------------------------
  // Siphon, trap and the next transition set

  /** A 0/1 integer vector as reals. */
  function AsReals(v: seq<int>): (r: seq<real>)
    ensures |r| == |v| && forall i | 0 <= i < |v| :: r[i] == v[i] as real
  {
    seq(|v|, i requires 0 <= i < |v| => v[i] as real)
  }

  /** The places a 0/1 real vector marks with 1 (`placeVectorToSet`). */
  function Indicated(v: seq<real>): (r: set<nat>)
    ensures forall i: nat :: i in r <==> i < |v| && v[i] == 1.0
  {
    set i: nat | i < |v| && v[i] == 1.0
  }

  lemma IndicatedMembers(v: seq<int>)
    requires SiphonsTraps.ZeroOne(v)
    ensures Indicated(AsReals(v)) == SiphonsTraps.Members(v)
  {
  }

  /** `placeSetPostset(net, Q)`: the transitions that consume from a place of Q. */
  function PlaceSetPostset(net: Net, Q: set<nat>): (r: set<nat>)
    ensures forall t :: t in r <==> exists q | q in Q && q < net.p() :: t in net.places[q].postset
  {
    set q, t | q in Q && q < net.p() && t in net.places[q].postset :: t
  }

  /** `placeSetPreset(net, R)`: the transitions that produce into a place of R. */
  function PlaceSetPreset(net: Net, R: set<nat>): (r: set<nat>)
    ensures forall t :: t in r <==> exists q | q in R && q < net.p() :: t in net.places[q].preset
  {
    set q, t | q in R && q < net.p() && t in net.places[q].preset :: t
  }

  /** A 0/1 vector that is zero wherever m is positive. */
  predicate IndicatorOfZeros(v: seq<real>, m: seq<real>) {
    |v| == |m| && forall i | 0 <= i < |v| :: (v[i] == 0.0 || v[i] == 1.0) && (v[i] == 1.0 ==> m[i] == 0.0)
  }

  /** What one level hands to the recursion and to the final assembly. */
  datatype Outcome =
    | Done(phi: Clauses)
    | Recurse(next: set<nat>, case1: Clauses, phiInv: seq<Atom>, vq: seq<real>, vr: seq<real>)

  /** The parts of a `Recurse` outcome as the assembly needs them. */
  predicate ReadyToAssemble(r: Outcome, msrc: seq<real>, mtgt: seq<real>)
    requires r.Recurse?
  {
    && |msrc| == |mtgt|
    && Shaped(r.case1, |msrc|)
    && (forall k | 0 <= k < |r.case1| :: |r.case1[k]| == 1 && r.case1[k][0].strict && r.case1[k][0].a == r.case1[k][0].ap
          && Dot(r.case1[k][0].a, mtgt) <= Dot(r.case1[k][0].a, msrc))
    && (forall j | 0 <= j < |r.phiInv| :: !r.phiInv[j].strict && r.phiInv[j].a == r.phiInv[j].ap
          && |r.phiInv[j].a| == |msrc|)
    && IndicatorOfZeros(r.vq, msrc) && IndicatorOfZeros(r.vr, mtgt)
  }

  /** One level of `locallyClosedBiSeparator`. For U empty it answers with the
      base case; when X is unsatisfiable with the `yempty` clause; otherwise it
      runs case 1 over the transitions `ts` of U minus Up (witness ys[k] for
      ts[k]) and, if no early answer comes, computes the largest siphon Q of
      Up empty in msrc, the largest trap R of Up empty in mtgt, and the
      transition set Up minus (Q° ∪ °R) for the recursive call. Every direct
      answer separates (msrc, mtgt) and holds on every (m, m). */
  method Step(net: Net, U: set<nat>, xUnsat: bool, yempty: seq<real>, Up: set<nat>,
              ts: seq<nat>, ys: seq<seq<real>>, msrc: seq<real>, mtgt: seq<real>) returns (r: Outcome)
    requires ValidNet(net) && |msrc| == |mtgt| == net.p()
    requires U == {} ==> msrc != mtgt
    requires U != {} && xUnsat ==> StrictYWitness(yempty, msrc, mtgt)
    requires Up <= U && |ts| == |ys| && (set k | 0 <= k < |ts| :: ts[k]) == U - Up
    requires forall k | 0 <= k < |ys| :: YWitness(ys[k], msrc, mtgt)
    ensures r.Done? ==> Separates(r.phi, msrc, mtgt) && Reflexive(r.phi, net.p())
    ensures r.Recurse? ==> U != {} && !xUnsat && ReadyToAssemble(r, msrc, mtgt)
    ensures r.Recurse? ==> r.case1 == Case1Clauses(ys) && r.phiInv == Invariants(ys)
    ensures r.Recurse? ==> && SiphonsTraps.IsSiphon(net, Up, Indicated(r.vq))
                           && (forall Q | SiphonsTraps.Unmarked(msrc, Q) && SiphonsTraps.IsSiphon(net, Up, Q) :: Q <= Indicated(r.vq))
                           && SiphonsTraps.IsTrap(net, Up, Indicated(r.vr))
                           && (forall R | SiphonsTraps.Unmarked(mtgt, R) && SiphonsTraps.IsTrap(net, Up, R) :: R <= Indicated(r.vr))
    ensures r.Recurse? ==> r.next == Up - (PlaceSetPostset(net, Indicated(r.vq)) + PlaceSetPreset(net, Indicated(r.vr)))
    ensures r.Recurse? ==> r.next <= Up <= U
  {
    if U == {} {
      var phi, _ := BaseCase(net.p(), msrc, mtgt);
      return Done(phi);
    }
    if xUnsat {
      return Done(UnsatCase(yempty, msrc, mtgt));
    }
    var c1 := Case1(ys, msrc, mtgt);
    if c1.Early? {
      return Done(c1.phi);
    }
    var vq := SiphonsTraps.LargestSiphon(net, Up, msrc);
    var vr := SiphonsTraps.LargestTrap(net, Up, mtgt);
    var next := Up - (PlaceSetPostset(net, SiphonsTraps.Members(vq)) + PlaceSetPreset(net, SiphonsTraps.Members(vr)));
    r := Recurse(next, c1.case1, c1.phiInv, AsReals(vq), AsReals(vr));
    IndicatedMembers(vq);
    IndicatedMembers(vr);
    forall k | 0 <= k < |ys|
      ensures Dot(ys[k], mtgt) <= Dot(ys[k], msrc)
    {
      WitnessDots(ys[k], msrc, mtgt);
    }
  }

  // ---------------------------------------------------------------------------
  // Assembly (tasks/separators.py:190-199)

  /** The clauses of case 3: phi_inv, then st, then a clause of psi. */
  function Case3Clauses(phiInv: seq<Atom>, st: Atom, psi: Clauses): (r: Clauses)
    ensures |r| == |psi| && forall k | 0 <= k < |psi| :: r[k] == phiInv + [st] + psi[k]
  {
    seq(|psi|, k requires 0 <= k < |psi| => phiInv + [st] + psi[k])
  }

  /** case 1, then case 2 = phi_inv + [−Q·m < R·m'], then case 3. */
  function Assemble(case1: Clauses, phiInv: seq<Atom>, vq: seq<real>, vr: seq<real>, psi: Clauses): Clauses {
    case1 + [phiInv + [Atom(Neg(vq), vr, true)]] + Case3Clauses(phiInv, Atom(vr, Neg(vq), false), psi)
  }

  /** phi_inv holds on every (m, m). */
  lemma InvariantsHold(phiInv: seq<Atom>, m: seq<real>)
    requires forall j | 0 <= j < |phiInv| :: !phiInv[j].strict && phiInv[j].a == phiInv[j].ap && |phiInv[j].a| == |m|
    ensures AllFit(phiInv, m, m) && Conj(phiInv, m, m)
  {
  }

  /** An indicator of zeros of m has dot product zero with m. */
  lemma IndicatorDot(v: seq<real>, m: seq<real>)
    requires IndicatorOfZeros(v, m)
    ensures Dot(v, m) == 0.0 && Dot(Neg(v), m) == 0.0
  {
    DotDisjoint(v, m);
    DotNeg(v, m);
  }

  /** Case 3 is false on (msrc, mtgt) when psi is. */
  lemma Case3Separates(phiInv: seq<Atom>, st: Atom, psi: Clauses, msrc: seq<real>, mtgt: seq<real>)
    requires AllFit(phiInv, msrc, mtgt) && Fits(st, msrc, mtgt) && Separates(psi, msrc, mtgt)
    ensures ClausesFit(Case3Clauses(phiInv, st, psi), msrc, mtgt)
    ensures !Disj(Case3Clauses(phiInv, st, psi), msrc, mtgt)
  {
    var c3 := Case3Clauses(phiInv, st, psi);
    ShapedFits(psi, msrc, mtgt);
    SingleAtom(st, msrc, mtgt);
    forall k | 0 <= k < |psi|
      ensures AllFit(c3[k], msrc, mtgt) && !Conj(c3[k], msrc, mtgt)
    {
      ConjAppend(phiInv, [st], msrc, mtgt);
      ConjAppend(phiInv + [st], psi[k], msrc, mtgt);
      assert !Conj(psi[k], msrc, mtgt);
    }
  }

  /** The assembled formula separates (msrc, mtgt) when psi does. */
  lemma AssembleSeparates(r: Outcome, psi: Clauses, msrc: seq<real>, mtgt: seq<real>)
    requires r.Recurse? && ReadyToAssemble(r, msrc, mtgt) && Separates(psi, msrc, mtgt)
    ensures Separates(Assemble(r.case1, r.phiInv, r.vq, r.vr, psi), msrc, mtgt)
  {
    var st2 := Atom(Neg(r.vq), r.vr, true);
    var st3 := Atom(r.vr, Neg(r.vq), false);
    var c2 := r.phiInv + [st2];
    var c3 := Case3Clauses(r.phiInv, st3, psi);
    // case 1: each strict singleton y·msrc < y·mtgt is false
    ShapedFits(r.case1, msrc, mtgt);
    forall k | 0 <= k < |r.case1|
      ensures !Conj(r.case1[k], msrc, mtgt)
    {
      assert r.case1[k] == [r.case1[k][0]];
      SingleAtom(r.case1[k][0], msrc, mtgt);
    }
    // case 2: −Q·msrc < R·mtgt reads 0 < 0
    IndicatorDot(r.vq, msrc);
    IndicatorDot(r.vr, mtgt);
    SingleAtom(st2, msrc, mtgt);
    ConjAppend(r.phiInv, [st2], msrc, mtgt);
    SingleClause(c2, msrc, mtgt);
    // case 3: each clause carries a clause of psi
    Case3Separates(r.phiInv, st3, psi, msrc, mtgt);
    DisjAppend(r.case1, [c2], msrc, mtgt);
    DisjAppend(r.case1 + [c2], c3, msrc, mtgt);
  }

  /** The assembled formula holds on (m, m) for every non-negative m on which
      psi holds; in particular on (msrc, msrc) and (mtgt, mtgt) when psi does. */
  lemma AssembleReflexive(r: Outcome, psi: Clauses, msrc: seq<real>, mtgt: seq<real>, m: seq<real>)
    requires r.Recurse? && ReadyToAssemble(r, msrc, mtgt) && Shaped(psi, |msrc|)
    requires |m| == |msrc| && NonNegative(m) && Sat(psi, m, m)
    ensures Sat(Assemble(r.case1, r.phiInv, r.vq, r.vr, psi), m, m)
  {
    var st2 := Atom(Neg(r.vq), r.vr, true);
    var st3 := Atom(r.vr, Neg(r.vq), false);
    var c2 := r.phiInv + [st2];
    var c3 := Case3Clauses(r.phiInv, st3, psi);
    ShapedFits(r.case1, m, m);
    InvariantsHold(r.phiInv, m);
    SingleAtom(st2, m, m);
    SingleAtom(st3, m, m);
    ConjAppend(r.phiInv, [st2], m, m);
    SingleClause(c2, m, m);
    Case3Fits(r.phiInv, st3, psi, m);
    DisjAppend(r.case1, [c2], m, m);
    DisjAppend(r.case1 + [c2], c3, m, m);
    DotNonNegative(r.vq, m);
    DotNonNegative(r.vr, m);
    DotNeg(r.vq, m);
    if Dot(r.vq, m) + Dot(r.vr, m) > 0.0 {
      assert Conj(c2, m, m);
    } else {
      var k :| 0 <= k < |psi| && Conj(psi[k], m, m);
      ConjAppend(r.phiInv, [st3], m, m);
      ConjAppend(r.phiInv + [st3], psi[k], m, m);
      assert Conj(c3[k], m, m);
    }
  }

  lemma Case3Fits(phiInv: seq<Atom>, st: Atom, psi: Clauses, m: seq<real>)
    requires AllFit(phiInv, m, m) && Fits(st, m, m) && Shaped(psi, |m|)
    ensures ClausesFit(Case3Clauses(phiInv, st, psi), m, m)
  {
    forall k | 0 <= k < |psi|
      ensures AllFit(Case3Clauses(phiInv, st, psi)[k], m, m)
    {
      ConjAppend(phiInv, [st], m, m);
      ConjAppend(phiInv + [st], psi[k], m, m);
    }
  }

  /** The final answer of a level that recursed, given the recursive answer
      psi: false on (msrc, mtgt) when psi is, and true on (msrc, msrc) and
      (mtgt, mtgt) when the markings are non-negative and psi is true there. */
  function Finish(r: Outcome, psi: Clauses, msrc: seq<real>, mtgt: seq<real>): (phi: Clauses)
    requires r.Recurse? && ReadyToAssemble(r, msrc, mtgt) && Shaped(psi, |msrc|)
    ensures |phi| == |r.case1| + 1 + |psi| && phi[..|r.case1|] == r.case1
    ensures Separates(psi, msrc, mtgt) ==> Separates(phi, msrc, mtgt)
    ensures NonNegative(msrc) && Sat(psi, msrc, msrc) ==> Sat(phi, msrc, msrc)
    ensures NonNegative(mtgt) && Sat(psi, mtgt, mtgt) ==> Sat(phi, mtgt, mtgt)
  {
    AssembleFacts(r, psi, msrc, mtgt);
    Assemble(r.case1, r.phiInv, r.vq, r.vr, psi)
  }

  lemma AssembleFacts(r: Outcome, psi: Clauses, msrc: seq<real>, mtgt: seq<real>)
    requires r.Recurse? && ReadyToAssemble(r, msrc, mtgt) && Shaped(psi, |msrc|)
    ensures Separates(psi, msrc, mtgt) ==> Separates(Assemble(r.case1, r.phiInv, r.vq, r.vr, psi), msrc, mtgt)
    ensures NonNegative(msrc) && Sat(psi, msrc, msrc) ==> Sat(Assemble(r.case1, r.phiInv, r.vq, r.vr, psi), msrc, msrc)
    ensures NonNegative(mtgt) && Sat(psi, mtgt, mtgt) ==> Sat(Assemble(r.case1, r.phiInv, r.vq, r.vr, psi), mtgt, mtgt)
  {
    if Separates(psi, msrc, mtgt) {
      AssembleSeparates(r, psi, msrc, mtgt);
    }
    if NonNegative(msrc) && Sat(psi, msrc, msrc) {
      AssembleReflexive(r, psi, msrc, mtgt, msrc);
    }
    if NonNegative(mtgt) && Sat(psi, mtgt, mtgt) {
      AssembleReflexive(r, psi, msrc, mtgt, mtgt);
    }
  }
}
