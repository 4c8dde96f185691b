/** The older copy of `isFireable` in reachability.py: instead of shrinking a
    remaining set it grows the admitted set `Tpp` until it equals `Tp`, each
    pass scanning a snapshot of `Tp - Tpp`. It is proved to return the same
    set and flag as the copy in tasks/reachability.py, since both equal the
    reference closure `FiringSets.MaxFiringSet`. */
module AccumulatingFiring {

  import opened PetriNet
  import opened FiringSets

  /** One scan of the snapshot `Tp - Tpp0` (Python's `for t in
      Tp.difference(Tpp)`): each transition whose needed places are marked is
      added at once, and the places it gives are marked for the rest of the scan. */
  method Scan(net: Net, ghost seed: set<nat>, Tp: set<nat>, Tpp0: set<nat>, Pp0: set<nat>, inv: bool,
              ghost order0: seq<nat>)
    returns (Tpp: set<nat>, Pp: set<nat>, progress: bool, ghost order: seq<nat>)
    requires TransitionsIn(net, Tp) && Tpp0 <= Tp
    requires Admitted(net, seed, Tpp0, Pp0, order0, inv)
    ensures Tpp0 <= Tpp <= Tp
    ensures progress <==> exists j :: j in Tpp && j !in Tpp0
    ensures Admitted(net, seed, Tpp, Pp, order, inv)
    ensures !progress ==> forall j | j in Tp - Tpp :: !(Needs(net, j, inv) <= Pp)
  {
    Tpp, Pp, progress, order := Tpp0, Pp0, false, order0;
    var todo := Tp - Tpp0;
    while todo != {}
      invariant todo <= Tp - Tpp && Tpp0 <= Tpp <= Tp
      invariant !progress ==> Tpp == Tpp0
      invariant progress ==> exists j :: j in Tpp && j !in Tpp0
      invariant Admitted(net, seed, Tpp, Pp, order, inv)
      invariant !progress ==> Pp == Pp0 && forall j | j in (Tp - Tpp0) - todo :: !(Needs(net, j, inv) <= Pp)
      decreases |todo|
    {
      var j :| j in todo;
      if Needs(net, j, inv) <= Pp {
        AdmitStep(net, seed, Tpp, Pp, order, inv, j);
        Tpp := Tpp + {j};
        Pp := Pp + Gives(net, j, inv);
        progress := true;
        order := order + [j];
      }
      todo := todo - {j};
    }
  }

  /** The loop of `isFireable`: passes over `Tp - Tpp` until either every
      transition of `Tp` is admitted or a pass admits nothing (the early
      `return False, Tpp`). */
  method Grow(net: Net, ghost seed: set<nat>, Tp: set<nat>, Pp0: set<nat>, inv: bool)
    returns (Tpp: set<nat>, Pp: set<nat>, ghost order: seq<nat>, ghost passes: nat)
    requires TransitionsIn(net, Tp) && Admitted(net, seed, {}, Pp0, [], inv)
    ensures Tpp <= Tp && Admitted(net, seed, Tpp, Pp, order, inv)
    ensures Tpp != Tp ==> Saturated(net, Tp, seed, Tpp, inv)
    ensures passes <= |Tp|
  {
    Tpp, Pp := {}, Pp0;
    order, passes := [], 0;
    while Tpp != Tp
      invariant Tpp <= Tp
      invariant Admitted(net, seed, Tpp, Pp, order, inv)
      invariant passes + |Tp - Tpp| <= |Tp|
      decreases |Tp - Tpp|
    {
      var Tpp', progress;
      Tpp', Pp, progress, order := Scan(net, seed, Tp, Tpp, Pp, inv, order);
      passes := passes + 1;
      if !progress {
        RestNonEmpty(Tp, Tpp);
        return;
      }
      GrowthShrinksRest(Tp, Tpp, Tpp');
      Tpp := Tpp';
    }
  }

  /** `isFireable(net, Tp, m, inv)` of reachability.py. */
  method IsFireable(net: Net, Tp: set<nat>, m: seq<real>, inv: bool)
    returns (full: bool, fired: set<nat>, ghost order: seq<nat>, ghost passes: nat)
    requires ValidNet(net) && |m| == net.p() && TransitionsIn(net, Tp)
    ensures fired <= Tp
    ensures full <==> fired == Tp
    ensures FiringOrder(net, SupportMarking(net, m), order, inv) && Elems(order) == fired
    ensures !full ==> forall j | j in Tp - fired :: !(Needs(net, j, inv) <= Marked(net, SupportMarking(net, m), fired, inv))
    ensures fired == MaxFiringSet(net, Tp, SupportMarking(net, m), inv)
    ensures passes <= |Tp|
  {
    var Pp := SupportMarking(net, m);
    ghost var seed := Pp;
    MarkedEmpty(net, seed, inv);
    fired, Pp, order, passes := Grow(net, seed, Tp, Pp, inv);
    full := fired == Tp;
    FiringSetIsMax(net, Tp, seed, order, inv);
  }

  /** A pass that admits something leaves fewer transitions to admit. */
  lemma GrowthShrinksRest(Tp: set<nat>, Tpp: set<nat>, Tpp': set<nat>)
    requires Tpp <= Tpp' <= Tp && exists j :: j in Tpp' && j !in Tpp
    ensures |Tp - Tpp'| < |Tp - Tpp|
  {
    var j :| j in Tpp' && j !in Tpp;
    assert j in Tp - Tpp && j !in Tp - Tpp';
    ProperSubsetSmaller(Tp - Tpp', Tp - Tpp);
  }

  lemma RestNonEmpty(Tp: set<nat>, Tpp: set<nat>)
    requires Tpp <= Tp && Tpp != Tp
    ensures |Tp - Tpp| >= 1
  {
    var j :| j in Tp && j !in Tpp;
    assert j in Tp - Tpp;
  }

  /** The two copies return the same flag and the same set on every input. */
  method CopiesAgree(net: Net, Tp: set<nat>, m: seq<real>, inv: bool)
    returns (same: bool)
    requires ValidNet(net) && |m| == net.p() && TransitionsIn(net, Tp)
    ensures same
  {
    var full1, fired1, _, _ := FiringSets.IsFireable(net, Tp, m, inv);
    var full2, fired2, _, _ := IsFireable(net, Tp, m, inv);
    same := full1 == full2 && fired1 == fired2;
  }
}
