/** The solver-free first lines of `isReachable` and `isCoverable` in
    tasks/reachability.py: both answer true at once when the target is already
    met by the initial marking, and otherwise hand over to the solver-driven
    refinement, which is not modelled. */
module Reachability {

  import opened PetriNet

  datatype Decision = Decided(answer: bool) | NeedsSolver

  /** `m` is at most `m0` in every place. */
  predicate Covered(m: seq<real>, m0: seq<real>)
    requires |m| == |m0|
  {
    forall i | 0 <= i < |m| :: m[i] <= m0[i]
  }

  /** The opening test of `isReachable`: answered true exactly when the target
      equals the initial marking; there is no solver-free "false". */
  method ReachableShortcut(net: Net, m: seq<real>) returns (r: Decision)
    requires |m| == net.p() && |net.marking| == net.p()
    ensures r == Decided(true) <==> m == net.marking
    ensures r != Decided(false)
  {
    var i := 0;
    while i < net.p()
      invariant 0 <= i <= net.p() && m[..i] == net.marking[..i]
    {
      if m[i] != net.marking[i] {
        return NeedsSolver;
      }
      i := i + 1;
    }
    assert m == m[..net.p()] && net.marking == net.marking[..net.p()];
    return Decided(true);
  }

  /** The opening test of `isCoverable`: answered true exactly when the target
      is at most the initial marking in every place. */
  method CoverableShortcut(net: Net, m: seq<real>) returns (r: Decision)
    requires |m| == net.p() && |net.marking| == net.p()
    ensures r == Decided(true) <==> Covered(m, net.marking)
    ensures r != Decided(false)
  {
    var i := 0;
    while i < net.p()
      invariant 0 <= i <= net.p() && Covered(m[..i], net.marking[..i])
    {
      if m[i] > net.marking[i] {
        return NeedsSolver;
      }
      i := i + 1;
    }
    assert m == m[..net.p()] && net.marking == net.marking[..net.p()];
    return Decided(true);
  }
}
