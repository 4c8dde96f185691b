/** The earlier net model of net.py. Its places carry no names and no
    preset/postset of their own, its transitions have no names, firing moves
    whole arc weights (no scaling factor), and `isFireable` is the forward
    accumulating closure seeded from the net's own initial marking. The
    datatypes of `PetriNet` are reused with empty names. */
module LegacyNet {

  import opened PetriNet
  import opened FiringSets
  import AccumulatingFiring

  /** `Transition.__init__` of net.py: the preset and postset are the places of
      the in- and out-arcs, and no place is told about the new transition. */
  function NewTransition(id: nat, inArcs: seq<Arc>, outArcs: seq<Arc>): (tr: Transition)
    ensures tr.id == id && tr.name == "" && tr.inArcs == inArcs && tr.outArcs == outArcs
    ensures forall q :: q in tr.preset <==> exists k | 0 <= k < |inArcs| :: inArcs[k].place == q
    ensures forall q :: q in tr.postset <==> exists k | 0 <= k < |outArcs| :: outArcs[k].place == q
  {
    Transition(id, "", ArcPlaces(inArcs), ArcPlaces(outArcs), inArcs, outArcs)
  }

  /** The transition built here is the one objects/Net.py builds from the same
      arcs; only the linking of the places, which this version lacks, differs. */
  lemma NewTransitionMatchesLinked(places: seq<Place>, id: nat, inArcs: seq<Arc>, outArcs: seq<Arc>)
    requires ArcsWithin(inArcs, |places|) && ArcsWithin(outArcs, |places|)
    ensures NewTransition(id, inArcs, outArcs) == PetriNet.NewTransition(places, id, "", inArcs, outArcs).0
  {
  }

  /** `Net.support` of net.py. */
  function Support(net: Net, m: seq<real>): (r: set<nat>)
    requires ValidNet(net) && |m| == net.p()
    ensures forall q :: q in r <==> 0 <= q < net.p() && m[q] > 0.0
  {
    SupportMarking(net, m)
  }

  /** `Transition.fire` of net.py: every in-arc is checked before any token
      moves; on success each in-arc place loses the arc's weight and each
      out-arc place gains it, repeated arcs accumulating. */
  function Fire(places: seq<Place>, tr: Transition): (r: (bool, seq<Place>))
    requires ArcsWithin(tr.inArcs, |places|) && ArcsWithin(tr.outArcs, |places|)
    ensures r.0 <==> forall k | 0 <= k < |tr.inArcs| :: places[tr.inArcs[k].place].tokens >= tr.inArcs[k].weight
    ensures !r.0 ==> r.1 == places
    ensures r.0 ==> |r.1| == |places| && forall q | 0 <= q < |places| ::
      r.1[q] == places[q].(tokens := places[q].tokens - WeightAt(tr.inArcs, q) + WeightAt(tr.outArcs, q))
  {
    var r := PetriNet.Fire(places, tr, 1.0);
    forall q | 0 <= q < |places|
      ensures AmountAt(tr.inArcs, q, 1.0) == WeightAt(tr.inArcs, q)
      ensures AmountAt(tr.outArcs, q, 1.0) == WeightAt(tr.outArcs, q)
    {
      AmountIsScaledWeight(tr.inArcs, q, 1.0);
      AmountIsScaledWeight(tr.outArcs, q, 1.0);
    }
    r
  }

  /** `Net.isFireable(Tp)` of net.py: the forward accumulating closure, seeded
      from the support of the net's initial marking. */
  method IsFireable(net: Net, Tp: set<nat>) returns (full: bool, fired: set<nat>, ghost order: seq<nat>)
    requires ValidNet(net) && |net.marking| == net.p() && TransitionsIn(net, Tp)
    ensures fired <= Tp
    ensures full <==> fired == Tp
    ensures FiringOrder(net, Support(net, net.marking), order, false) && Elems(order) == fired
    ensures !full ==> forall j | j in Tp - fired ::
      !(net.transitions[j].preset <= Marked(net, Support(net, net.marking), fired, false))
    ensures fired == MaxFiringSet(net, Tp, Support(net, net.marking), false)
  {
    ghost var passes;
    full, fired, order, passes := AccumulatingFiring.IsFireable(net, Tp, net.marking, false);
  }

  /** This closure and the forward closure of tasks/reachability.py, run on the
      net's initial marking, return the same flag and set. */
  method AgreesWithForwardClosure(net: Net, Tp: set<nat>) returns (same: bool)
    requires ValidNet(net) && |net.marking| == net.p() && TransitionsIn(net, Tp)
    ensures same
  {
    var full1, fired1, _ := IsFireable(net, Tp);
    var full2, fired2, _, _ := FiringSets.IsFireable(net, Tp, net.marking, false);
    same := full1 == full2 && fired1 == fired2;
  }
}
