/** The firing-set closure of tasks/reachability.py (`isFireable`), and the
    reference notion every copy of the closure is proved against: the largest
    subset of `Tp` that can be admitted one transition at a time, starting from
    the places a marking supports. In the inverse net the roles of a
    transition's preset and postset swap. */
module FiringSets {

  import opened PetriNet

  predicate TransitionsIn(net: Net, S: set<nat>) {
    forall j | j in S :: j < net.t()
  }

  /** The places transition `j` needs marked before it is admitted: its preset,
      or its postset in the inverse net. */
  function Needs(net: Net, j: nat, inv: bool): set<nat>
    requires j < net.t()
  {
    if inv then net.transitions[j].postset else net.transitions[j].preset
  }

  /** The places transition `j` marks once admitted: its postset, or its preset
      in the inverse net. */
  function Gives(net: Net, j: nat, inv: bool): set<nat>
    requires j < net.t()
  {
    if inv then net.transitions[j].preset else net.transitions[j].postset
  }

  /** The places marked once every transition of `S` has been admitted from `seed`. */
  function Marked(net: Net, seed: set<nat>, S: set<nat>, inv: bool): set<nat> {
    seed + (set j, q | j in S && j < net.t() && q in Gives(net, j, inv) :: q)
  }

  function Elems(order: seq<nat>): set<nat> {
    set k | 0 <= k < |order| :: order[k]
  }

  /** The transition at position `k` of `order` is not listed earlier and needs
      only places that are in `seed` or marked by the transitions before it. */
  ghost predicate ReadyAt(net: Net, seed: set<nat>, order: seq<nat>, k: nat, inv: bool)
    requires k < |order|
  {
    && order[k] < net.t()
    && order[k] !in Elems(order[..k])
    && Needs(net, order[k], inv) <= Marked(net, seed, Elems(order[..k]), inv)
  }

  /** `order` admits its transitions one after the other from `seed`. */
  ghost predicate FiringOrder(net: Net, seed: set<nat>, order: seq<nat>, inv: bool) {
    forall k | 0 <= k < |order| :: ReadyAt(net, seed, order, k, inv)
  }

  /** No transition of `Tp` outside `S` has all the places it needs once `S` is admitted. */
  ghost predicate Saturated(net: Net, Tp: set<nat>, seed: set<nat>, S: set<nat>, inv: bool)
    requires TransitionsIn(net, Tp) && TransitionsIn(net, S)
  {
    forall j | j in Tp && j !in S :: !(Needs(net, j, inv) <= Marked(net, seed, S, inv))
  }

  /** The transitions of `Tp` outside `S` that can be admitted once `S` is. */
  function Admissible(net: Net, Tp: set<nat>, seed: set<nat>, S: set<nat>, inv: bool): set<nat>
    requires TransitionsIn(net, Tp) && TransitionsIn(net, S)
  {
    set j | j in Tp && j !in S && Needs(net, j, inv) <= Marked(net, seed, S, inv)
  }

  /** Admits, round after round, every admissible transition, until none is left. */
  function Grow(net: Net, Tp: set<nat>, seed: set<nat>, S: set<nat>, inv: bool): (r: set<nat>)
    requires TransitionsIn(net, Tp) && S <= Tp
    ensures S <= r <= Tp
    ensures Saturated(net, Tp, seed, r, inv)
    decreases |Tp - S|
  {
    var E := Admissible(net, Tp, seed, S, inv);
    if E == {} then
      assert forall j | j in Tp && j !in S :: j !in E;
      S
    else
      assert |Tp - (S + E)| < |Tp - S| by {
        var j :| j in E;
        assert Tp - (S + E) < Tp - S by { assert j in Tp - S && j !in Tp - (S + E); }
      }
      Grow(net, Tp, seed, S + E, inv)
  }

  /** The reference closure: the largest firing set within `Tp` from `seed`. */
  function MaxFiringSet(net: Net, Tp: set<nat>, seed: set<nat>, inv: bool): (r: set<nat>)
    requires TransitionsIn(net, Tp)
    ensures r <= Tp && Saturated(net, Tp, seed, r, inv)
  {
    Grow(net, Tp, seed, {}, inv)
  }

  // ---------------------------------------------------------------------------
  // Facts about `Marked` and firing orders

  lemma ProperSubsetSmaller(A: set<nat>, B: set<nat>)
    requires A < B
    ensures |A| < |B|
  {
    var j :| j in B && j !in A;
    var C := (B - {j}) - A;
    assert B - {j} == A + C && A !! C;
    assert |B - {j}| == |A| + |C|;
    assert B == (B - {j}) + {j};
  }

  lemma MarkedMonotone(net: Net, seed: set<nat>, S: set<nat>, T: set<nat>, inv: bool)
    requires TransitionsIn(net, T) && S <= T
    ensures Marked(net, seed, S, inv) <= Marked(net, seed, T, inv)
  {
  }

  lemma MarkedAdd(net: Net, seed: set<nat>, S: set<nat>, j: nat, inv: bool)
    requires TransitionsIn(net, S) && j < net.t()
    ensures Marked(net, seed, S + {j}, inv) == Marked(net, seed, S, inv) + Gives(net, j, inv)
  {
  }

  lemma MarkedEmpty(net: Net, seed: set<nat>, inv: bool)
    ensures Marked(net, seed, {}, inv) == seed
  {
  }

  /** Appending an admissible, not yet listed transition keeps a firing order. */
  lemma FiringOrderExtend(net: Net, seed: set<nat>, order: seq<nat>, inv: bool, j: nat)
    requires FiringOrder(net, seed, order, inv)
    requires j < net.t() && j !in Elems(order)
    requires Needs(net, j, inv) <= Marked(net, seed, Elems(order), inv)
    ensures FiringOrder(net, seed, order + [j], inv)
    ensures Elems(order + [j]) == Elems(order) + {j}
  {
    var o := order + [j];
    assert o[..|order|] == order;
    forall k | 0 <= k < |o|
      ensures ReadyAt(net, seed, o, k, inv)
    {
      if k < |order| {
        assert o[..k] == order[..k];
        assert ReadyAt(net, seed, order, k, inv);
      }
    }
    assert forall k | 0 <= k < |order| :: o[k] == order[k];
    assert o[|order|] == j;
    assert forall x | x in Elems(order) :: x in Elems(o);
  }

  /** Every transition `Grow` adds lies inside any saturated set above its start. */
  lemma {:induction false} GrowWithinSaturated(net: Net, Tp: set<nat>, seed: set<nat>, S: set<nat>, A: set<nat>, inv: bool)
    requires TransitionsIn(net, Tp) && S <= A <= Tp
    requires Saturated(net, Tp, seed, A, inv)
    ensures Grow(net, Tp, seed, S, inv) <= A
    decreases |Tp - S|
  {
    var E := Admissible(net, Tp, seed, S, inv);
    if E != {} {
      forall j | j in E
        ensures j in A
      {
        MarkedMonotone(net, seed, S, A, inv);
      }
      assert |Tp - (S + E)| < |Tp - S| by {
        var j :| j in E;
        assert Tp - (S + E) < Tp - S by { assert j in Tp - S && j !in Tp - (S + E); }
      }
      GrowWithinSaturated(net, Tp, seed, S + E, A, inv);
    }
  }

  /** Every transition of a firing order within `Tp` lies inside any saturated set. */
  lemma {:induction false} OrderWithinSaturated(net: Net, Tp: set<nat>, seed: set<nat>, order: seq<nat>, G: set<nat>, inv: bool)
    requires TransitionsIn(net, Tp) && G <= Tp
    requires FiringOrder(net, seed, order, inv) && Elems(order) <= Tp
    requires Saturated(net, Tp, seed, G, inv)
    ensures Elems(order) <= G
    decreases |order|
  {
    if |order| > 0 {
      var n := |order| - 1;
      var prefix := order[..n];
      assert FiringOrder(net, seed, prefix, inv) by {
        forall k | 0 <= k < n
          ensures ReadyAt(net, seed, prefix, k, inv)
        {
          assert prefix[..k] == order[..k];
          assert ReadyAt(net, seed, order, k, inv);
        }
      }
      assert Elems(prefix) <= Elems(order);
      OrderWithinSaturated(net, Tp, seed, prefix, G, inv);
      MarkedMonotone(net, seed, Elems(prefix), G, inv);
      assert order[..n] == prefix;
      assert ReadyAt(net, seed, order, n, inv);
      assert order[n] in G;
      assert Elems(order) == Elems(prefix) + {order[n]};
    }
  }

  /** A set with a firing order that is saturated within `Tp` is the reference
      closure: soundness and maximality determine the result of every copy. */
  lemma FiringSetIsMax(net: Net, Tp: set<nat>, seed: set<nat>, order: seq<nat>, inv: bool)
    requires TransitionsIn(net, Tp)
    requires FiringOrder(net, seed, order, inv) && Elems(order) <= Tp
    requires Saturated(net, Tp, seed, Elems(order), inv)
    ensures Elems(order) == MaxFiringSet(net, Tp, seed, inv)
  {
    var G := MaxFiringSet(net, Tp, seed, inv);
    OrderWithinSaturated(net, Tp, seed, order, G, inv);
    GrowWithinSaturated(net, Tp, seed, {}, Elems(order), inv);
  }

  // ---------------------------------------------------------------------------
  // `isFireable` of tasks/reachability.py

  /** `Pp` is what the admitted set `S` marks from `seed`, and `order` admits `S`. */
  ghost predicate Admitted(net: Net, seed: set<nat>, S: set<nat>, Pp: set<nat>, order: seq<nat>, inv: bool) {
    && TransitionsIn(net, S)
    && Pp == Marked(net, seed, S, inv)
    && FiringOrder(net, seed, order, inv)
    && Elems(order) == S
  }

  /** Admitting one transition whose needed places are marked. */
  lemma AdmitStep(net: Net, seed: set<nat>, S: set<nat>, Pp: set<nat>, order: seq<nat>, inv: bool, j: nat)
    requires Admitted(net, seed, S, Pp, order, inv)
    requires j < net.t() && j !in S && Needs(net, j, inv) <= Pp
    ensures Admitted(net, seed, S + {j}, Pp + Gives(net, j, inv), order + [j], inv)
  {
    FiringOrderExtend(net, seed, order, inv, j);
    MarkedAdd(net, seed, S, j, inv);
  }

  /** One pass over `remaining` (Python's `for t in Tpp`, in any order): every
      transition whose needed places are all marked is removed, marking what
      it gives at once, so later transitions of the same pass may use it. */
  method Pass(net: Net, ghost seed: set<nat>, ghost done: set<nat>, remaining: set<nat>, Pp0: set<nat>, inv: bool,
              ghost order0: seq<nat>)
    returns (removed: set<nat>, Pp: set<nat>, progress: bool, ghost order: seq<nat>)
    requires TransitionsIn(net, remaining) && done !! remaining
    requires Admitted(net, seed, done, Pp0, order0, inv)
    ensures removed <= remaining
    ensures progress <==> removed != {}
    ensures Admitted(net, seed, done + removed, Pp, order, inv)
    ensures !progress ==> Pp == Pp0 && forall j | j in remaining :: !(Needs(net, j, inv) <= Pp)
  {
    removed, Pp, progress, order := {}, Pp0, false, order0;
    ghost var S := done;
    var todo := remaining;
    while todo != {}
      invariant todo <= remaining && removed <= remaining - todo
      invariant S == done + removed
      invariant progress <==> removed != {}
      invariant Admitted(net, seed, S, Pp, order, inv)
      invariant !progress ==> Pp == Pp0 && forall j | j in remaining - todo :: !(Needs(net, j, inv) <= Pp)
      decreases |todo|
    {
      var j :| j in todo;
      if Needs(net, j, inv) <= Pp {
        AdmitStep(net, seed, S, Pp, order, inv, j);
        S := S + {j};
        removed := removed + {j};
        Pp := Pp + Gives(net, j, inv);
        progress := true;
        order := order + [j];
      }
      todo := todo - {j};
    }
  }

  /** `isFireable(net, Tp, m, inv)` of tasks/reachability.py. It works on a copy
      of `Tp` and returns the admitted transitions, which are exactly the
      reference closure from the support of `m`, with a flag that is true iff
      all of `Tp` was admitted. `order` is an admission order witnessing
      soundness, and `passes` counts the passes over the remaining set. */
  method IsFireable(net: Net, Tp: set<nat>, m: seq<real>, inv: bool)
    returns (full: bool, fired: set<nat>, ghost order: seq<nat>, ghost passes: nat)
    requires ValidNet(net) && |m| == net.p() && TransitionsIn(net, Tp)
    ensures fired <= Tp
    ensures full <==> fired == Tp
    ensures FiringOrder(net, SupportMarking(net, m), order, inv) && Elems(order) == fired
    ensures Saturated(net, Tp, SupportMarking(net, m), fired, inv)
    ensures fired == MaxFiringSet(net, Tp, SupportMarking(net, m), inv)
    ensures passes <= |Tp|
  {
    var remaining := Tp;
    var Pp := SupportMarking(net, m);
    ghost var seed := Pp;
    MarkedEmpty(net, seed, inv);
    assert Tp - remaining == {};
    order, passes := [], 0;
    while |remaining| > 0
      invariant remaining <= Tp
      invariant Admitted(net, seed, Tp - remaining, Pp, order, inv)
      invariant passes + |remaining| <= |Tp|
      decreases |remaining|
    {
      var removed, progress;
      removed, Pp, progress, order := Pass(net, seed, Tp - remaining, remaining, Pp, inv, order);
      assert (Tp - remaining) + removed == Tp - (remaining - removed);
      passes := passes + 1;
      if !progress {
        fired, full := Tp - remaining, false;
        assert exists j :: j in remaining;
        FiringSetIsMax(net, Tp, seed, order, inv);
        return;
      }
      assert |remaining - removed| < |remaining| by {
        var j :| j in removed;
        assert remaining - removed < remaining by { assert j in remaining && j !in remaining - removed; }
      }
      remaining := remaining - removed;
    }
    assert remaining == {};
    fired, full := Tp - remaining, true;
    FiringSetIsMax(net, Tp, seed, order, inv);
  }
}
