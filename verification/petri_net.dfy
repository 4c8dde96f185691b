/** Places, arcs, transitions and the net of a continuous Petri net, with the
    structural queries of objects/Net.py. Places and transitions are referred
    to by their ids; arcs name the id of their place. */
module PetriNet {

  import Vectors

  /** A place: `preset` holds the ids of the transitions producing into it,
      `postset` the ids of those consuming from it. */
  datatype Place = Place(id: nat, name: string, tokens: real, preset: set<nat>, postset: set<nat>)

  /** An arc between a transition and the place `place`; an `InArc` and an
      `OutArc` have the same shape and differ only in how they are used. */
  datatype Arc = Arc(place: nat, weight: real)

  /** A transition: `preset` holds the places it consumes from, `postset` the
      places it produces into. */
  datatype Transition = Transition(id: nat, name: string, preset: set<nat>, postset: set<nat>,
                                   inArcs: seq<Arc>, outArcs: seq<Arc>)

  datatype Net = Net(name: string, places: seq<Place>, transitions: seq<Transition>, marking: seq<real>,
                     placeIds: map<string, nat>, transitionIds: map<string, nat>)
  {
    /** Number of places. */
    function p(): nat { |places| }

    /** Number of transitions. */
    function t(): nat { |transitions| }
  }

  predicate ArcsWithin(arcs: seq<Arc>, n: nat) {
    forall k | 0 <= k < |arcs| :: arcs[k].place < n
  }

  predicate TransitionWithin(tr: Transition, n: nat) {
    && ArcsWithin(tr.inArcs, n) && ArcsWithin(tr.outArcs, n)
    && (forall q | q in tr.preset :: q < n)
    && (forall q | q in tr.postset :: q < n)
  }

  /** Ids are positions, and every arc, preset and postset stays inside the net. */
  predicate ValidNet(net: Net) {
    && (forall i | 0 <= i < net.p() :: net.places[i].id == i)
    && (forall j | 0 <= j < net.t() :: net.transitions[j].id == j)
    && (forall j | 0 <= j < net.t() :: TransitionWithin(net.transitions[j], net.p()))
    && (forall i, j | 0 <= i < net.p() && j in net.places[i].preset :: j < net.t())
    && (forall i, j | 0 <= i < net.p() && j in net.places[i].postset :: j < net.t())
  }

  /** The two-way linkage a net built through `NewTransition` has: a transition
      consumes from a place iff it is in the place's postset, and produces into
      it iff it is in the place's preset. */
  predicate Linked(net: Net) {
    forall i, j | 0 <= i < net.p() && 0 <= j < net.t() ::
      && (j in net.places[i].postset <==> i in net.transitions[j].preset)
      && (j in net.places[i].preset <==> i in net.transitions[j].postset)
  }

  // ---------------------------------------------------------------------------
  // Arcs and firing

  /** `InArc.isEnabled`: the arc's place holds at least `alpha` times its weight. */
  predicate IsEnabled(places: seq<Place>, a: Arc, alpha: real)
    requires a.place < |places|
  {
    places[a.place].tokens >= alpha * a.weight
  }

  /** `InArc.use` (when `consume`) and `OutArc.use`: the arc's place loses or
      gains `alpha` times the arc weight. */
  function Use(places: seq<Place>, a: Arc, alpha: real, consume: bool): seq<Place>
    requires a.place < |places|
  {
    var amount := alpha * a.weight;
    var before := places[a.place].tokens;
    places[a.place := places[a.place].(tokens := if consume then before - amount else before + amount)]
  }

  /** Total weight of the arcs of `arcs` attached to place `q`. */
  function WeightAt(arcs: seq<Arc>, q: nat): real
    decreases |arcs|
  {
    if |arcs| == 0 then 0.0
    else (if arcs[0].place == q then arcs[0].weight else 0.0) + WeightAt(arcs[1..], q)
  }

  /** Every arc of `arcs` is enabled, each checked on the unchanged tokens. */
  function AllEnabled(places: seq<Place>, arcs: seq<Arc>, alpha: real): (r: bool)
    requires ArcsWithin(arcs, |places|)
    ensures r <==> forall k | 0 <= k < |arcs| :: IsEnabled(places, arcs[k], alpha)
    decreases |arcs|
  {
    if |arcs| == 0 then true
    else IsEnabled(places, arcs[0], alpha) && AllEnabled(places, arcs[1..], alpha)
  }

  /** Total of `alpha` times the weight of each arc of `arcs` attached to place `q`. */
  function AmountAt(arcs: seq<Arc>, q: nat, alpha: real): real
    decreases |arcs|
  {
    if |arcs| == 0 then 0.0
    else (if arcs[0].place == q then alpha * arcs[0].weight else 0.0) + AmountAt(arcs[1..], q, alpha)
  }

  /** The amount moved at a place is `alpha` times the total weight there. */
  lemma {:induction false} AmountIsScaledWeight(arcs: seq<Arc>, q: nat, alpha: real)
    ensures AmountAt(arcs, q, alpha) == alpha * WeightAt(arcs, q)
    decreases |arcs|
  {
    if |arcs| > 0 {
      AmountIsScaledWeight(arcs[1..], q, alpha);
      var w := if arcs[0].place == q then arcs[0].weight else 0.0;
      assert (if arcs[0].place == q then alpha * arcs[0].weight else 0.0) == alpha * w;
      assert alpha * (w + WeightAt(arcs[1..], q)) == alpha * w + alpha * WeightAt(arcs[1..], q);
    }
  }

  /** Uses the arcs one after the other (consuming for `InArc.use`, producing for
      `OutArc.use`); each place moves by the amount of its arcs, and nothing else
      about any place changes. */
  function UseAll(places: seq<Place>, arcs: seq<Arc>, alpha: real, consume: bool): (r: seq<Place>)
    requires ArcsWithin(arcs, |places|)
    ensures |r| == |places|
    ensures forall q | 0 <= q < |places| ::
      r[q] == places[q].(tokens := if consume then places[q].tokens - AmountAt(arcs, q, alpha)
                                   else places[q].tokens + AmountAt(arcs, q, alpha))
    decreases |arcs|
  {
    if |arcs| == 0 then places
    else UseAll(Use(places, arcs[0], alpha, consume), arcs[1..], alpha, consume)
  }

  /** The token movement of a firing: the in-arc places lose and the out-arc
      places gain `alpha` times the arc weight, repeated arcs adding up. */
  function Move(places: seq<Place>, tr: Transition, alpha: real): (r: seq<Place>)
    requires ArcsWithin(tr.inArcs, |places|) && ArcsWithin(tr.outArcs, |places|)
    ensures |r| == |places| && forall q | 0 <= q < |places| ::
      r[q] == places[q].(tokens := places[q].tokens - AmountAt(tr.inArcs, q, alpha) + AmountAt(tr.outArcs, q, alpha))
  {
    var consumed := UseAll(places, tr.inArcs, alpha, true);
    UseAll(consumed, tr.outArcs, alpha, false)
  }

  /** `Transition.fire(alpha)`: every in-arc is checked first; only when all of
      them are enabled do the tokens move. */
  function Fire(places: seq<Place>, tr: Transition, alpha: real): (r: (bool, seq<Place>))
    requires ArcsWithin(tr.inArcs, |places|) && ArcsWithin(tr.outArcs, |places|)
    ensures r.0 <==> forall k | 0 <= k < |tr.inArcs| :: IsEnabled(places, tr.inArcs[k], alpha)
    ensures !r.0 ==> r.1 == places
    ensures r.0 ==> |r.1| == |places| && forall q | 0 <= q < |places| ::
      r.1[q] == places[q].(tokens := places[q].tokens - AmountAt(tr.inArcs, q, alpha) + AmountAt(tr.outArcs, q, alpha))
  {
    if AllEnabled(places, tr.inArcs, alpha) then (true, Move(places, tr, alpha)) else (false, places)
  }

  /** A place on no arc of `tr` keeps its tokens when `tr` fires. */
  lemma FireLeavesOtherPlaces(places: seq<Place>, tr: Transition, alpha: real, q: nat)
    requires ArcsWithin(tr.inArcs, |places|) && ArcsWithin(tr.outArcs, |places|)
    requires q < |places|
    requires forall k | 0 <= k < |tr.inArcs| :: tr.inArcs[k].place != q
    requires forall k | 0 <= k < |tr.outArcs| :: tr.outArcs[k].place != q
    ensures Fire(places, tr, alpha).1[q] == places[q]
  {
    AmountAtAbsent(tr.inArcs, q, alpha);
    AmountAtAbsent(tr.outArcs, q, alpha);
  }

  lemma {:induction false} AmountAtAbsent(arcs: seq<Arc>, q: nat, alpha: real)
    requires forall k | 0 <= k < |arcs| :: arcs[k].place != q
    ensures AmountAt(arcs, q, alpha) == 0.0
    decreases |arcs|
  {
    if |arcs| > 0 {
      AmountAtAbsent(arcs[1..], q, alpha);
    }
  }

  // ---------------------------------------------------------------------------
  // Building transitions

  /** The places the arcs of `arcs` attach to. */
  function ArcPlaces(arcs: seq<Arc>): (r: set<nat>)
    ensures forall q :: q in r <==> exists k | 0 <= k < |arcs| :: arcs[k].place == q
    decreases |arcs|
  {
    if |arcs| == 0 then {}
    else
      var rest := ArcPlaces(arcs[1..]);
      assert forall k | 1 <= k < |arcs| :: arcs[1..][k - 1] == arcs[k];
      {arcs[0].place} + rest
  }

  /** Adds `id` to the postset (when `toPostset`) or the preset of every place an arc of `arcs` names. */
  function Link(places: seq<Place>, arcs: seq<Arc>, id: nat, toPostset: bool): (r: seq<Place>)
    requires ArcsWithin(arcs, |places|)
    ensures |r| == |places|
    ensures forall q | 0 <= q < |places| ::
      var extra := if q in ArcPlaces(arcs) then {id} else {};
      r[q] == if toPostset then places[q].(postset := places[q].postset + extra)
              else places[q].(preset := places[q].preset + extra)
    decreases |arcs|
  {
    if |arcs| == 0 then places
    else
      var a := arcs[0];
      var next := if toPostset then places[a.place := places[a.place].(postset := places[a.place].postset + {id})]
                  else places[a.place := places[a.place].(preset := places[a.place].preset + {id})];
      Link(next, arcs[1..], id, toPostset)
  }

  /** `Transition.__init__` of objects/Net.py: the transition's preset and
      postset are the places of its in- and out-arcs, and, in the other
      direction, the transition joins the postset of each in-arc place and the
      preset of each out-arc place. No other part of any place changes. */
  function NewTransition(places: seq<Place>, id: nat, name: string, inArcs: seq<Arc>, outArcs: seq<Arc>)
    : (r: (Transition, seq<Place>))
    requires ArcsWithin(inArcs, |places|) && ArcsWithin(outArcs, |places|)
    ensures r.0.id == id && r.0.name == name && r.0.inArcs == inArcs && r.0.outArcs == outArcs
    ensures forall q :: q in r.0.preset <==> exists k | 0 <= k < |inArcs| :: inArcs[k].place == q
    ensures forall q :: q in r.0.postset <==> exists k | 0 <= k < |outArcs| :: outArcs[k].place == q
    ensures |r.1| == |places|
    ensures forall q | 0 <= q < |places| ::
      && r.1[q].id == places[q].id && r.1[q].name == places[q].name && r.1[q].tokens == places[q].tokens
      && r.1[q].postset == places[q].postset + (if q in r.0.preset then {id} else {})
      && r.1[q].preset == places[q].preset + (if q in r.0.postset then {id} else {})
  {
    var tr := Transition(id, name, ArcPlaces(inArcs), ArcPlaces(outArcs), inArcs, outArcs);
    var linked := Link(Link(places, inArcs, id, true), outArcs, id, false);
    (tr, linked)
  }

  /** The description of one transition as a reader hands it over. */
  datatype TransitionSpec = TransitionSpec(name: string, inArcs: seq<Arc>, outArcs: seq<Arc>)

  predicate SpecsWithin(specs: seq<TransitionSpec>, n: nat) {
    forall k | 0 <= k < |specs| :: ArcsWithin(specs[k].inArcs, n) && ArcsWithin(specs[k].outArcs, n)
  }

  /** Constructs the transitions of `specs` with ids `start`, `start + 1`, ...,
      threading the places through every construction. */
  function NewTransitions(places: seq<Place>, specs: seq<TransitionSpec>, start: nat)
    : (r: (seq<Transition>, seq<Place>))
    requires SpecsWithin(specs, |places|)
    ensures |r.0| == |specs| && |r.1| == |places|
    decreases |specs|
  {
    if |specs| == 0 then ([], places)
    else
      var built := NewTransition(places, start, specs[0].name, specs[0].inArcs, specs[0].outArcs);
      var rest := NewTransitions(built.1, specs[1..], start + 1);
      ([built.0] + rest.0, rest.1)
  }

  /** Constructing transitions `start..` one after the other gives each the
      next id and the places of its arcs as preset and postset. */
  lemma {:induction false} NewTransitionsShape(places: seq<Place>, specs: seq<TransitionSpec>, start: nat)
    requires SpecsWithin(specs, |places|)
    ensures var r := NewTransitions(places, specs, start);
      forall k | 0 <= k < |specs| ::
        r.0[k] == Transition(start + k, specs[k].name, ArcPlaces(specs[k].inArcs), ArcPlaces(specs[k].outArcs),
                             specs[k].inArcs, specs[k].outArcs)
    decreases |specs|
  {
    if |specs| > 0 {
      var built := NewTransition(places, start, specs[0].name, specs[0].inArcs, specs[0].outArcs);
      NewTransitionsShape(built.1, specs[1..], start + 1);
    }
  }

  /** The in-arcs (when `consumers`) or the out-arcs of a spec. */
  function SpecArcs(spec: TransitionSpec, consumers: bool): seq<Arc> {
    if consumers then spec.inArcs else spec.outArcs
  }

  /** The ids among `start..` of the specs whose in-arcs (when `consumers`) or
      out-arcs name place `q`. */
  function LinkedIds(specs: seq<TransitionSpec>, start: nat, q: nat, consumers: bool): set<nat>
    decreases |specs|
  {
    if |specs| == 0 then {}
    else
      (if q in ArcPlaces(SpecArcs(specs[0], consumers)) then {start} else {})
        + LinkedIds(specs[1..], start + 1, q, consumers)
  }

  lemma {:induction false} LinkedIdsMembers(specs: seq<TransitionSpec>, start: nat, q: nat, consumers: bool)
    ensures forall j :: j in LinkedIds(specs, start, q, consumers) <==>
      start <= j < start + |specs| && q in ArcPlaces(SpecArcs(specs[j - start], consumers))
    decreases |specs|
  {
    if |specs| > 0 {
      var tail := LinkedIds(specs[1..], start + 1, q, consumers);
      LinkedIdsMembers(specs[1..], start + 1, q, consumers);
      forall j
        ensures j in LinkedIds(specs, start, q, consumers) <==>
          start <= j < start + |specs| && q in ArcPlaces(SpecArcs(specs[j - start], consumers))
      {
        if start < j < start + |specs| {
          assert specs[1..][j - (start + 1)] == specs[j - start];
        }
      }
    }
  }

  /** ... and links each place to exactly the transitions whose arcs name it,
      on top of its old links, leaving the rest of the place as it was. */
  lemma {:induction false} NewTransitionsPlace(places: seq<Place>, specs: seq<TransitionSpec>, start: nat, q: nat)
    requires SpecsWithin(specs, |places|) && q < |places|
    ensures var r := NewTransitions(places, specs, start);
      && r.1[q].id == places[q].id && r.1[q].name == places[q].name && r.1[q].tokens == places[q].tokens
      && r.1[q].postset == places[q].postset + LinkedIds(specs, start, q, true)
      && r.1[q].preset == places[q].preset + LinkedIds(specs, start, q, false)
    decreases |specs|
  {
    if |specs| > 0 {
      var built := NewTransition(places, start, specs[0].name, specs[0].inArcs, specs[0].outArcs);
      NewTransitionsPlace(built.1, specs[1..], start + 1, q);
      assert built.0.preset == ArcPlaces(specs[0].inArcs) && built.0.postset == ArcPlaces(specs[0].outArcs);
    }
  }

  /** A net whose places start with empty presets and postsets and whose
      transitions are all built by `NewTransition`, with ids `0..`, is `Linked`. */
  lemma NewTransitionsGiveLinkedNet(name: string, places: seq<Place>, specs: seq<TransitionSpec>, marking: seq<real>,
                                    placeIds: map<string, nat>, transitionIds: map<string, nat>)
    requires SpecsWithin(specs, |places|)
    requires forall q | 0 <= q < |places| :: places[q].preset == {} && places[q].postset == {}
    ensures var r := NewTransitions(places, specs, 0);
      Linked(Net(name, r.1, r.0, marking, placeIds, transitionIds))
  {
    var r := NewTransitions(places, specs, 0);
    forall q, j | 0 <= q < |places| && 0 <= j < |specs|
      ensures && (j in r.1[q].postset <==> q in r.0[j].preset)
              && (j in r.1[q].preset <==> q in r.0[j].postset)
    {
      NewTransitionsPair(places, specs, q, j);
    }
  }

  /** One place and one transition of `NewTransitions(places, specs, 0)` link
      each other both ways, or neither does. */
  lemma NewTransitionsPair(places: seq<Place>, specs: seq<TransitionSpec>, q: nat, j: nat)
    requires SpecsWithin(specs, |places|)
    requires forall q | 0 <= q < |places| :: places[q].preset == {} && places[q].postset == {}
    requires q < |places| && j < |specs|
    ensures var r := NewTransitions(places, specs, 0);
      && (j in r.1[q].postset <==> q in r.0[j].preset)
      && (j in r.1[q].preset <==> q in r.0[j].postset)
  {
    var r := NewTransitions(places, specs, 0);
    NewTransitionsShape(places, specs, 0);
    NewTransitionsPlace(places, specs, 0, q);
    assert r.1[q].postset == LinkedIds(specs, 0, q, true);
    assert r.1[q].preset == LinkedIds(specs, 0, q, false);
    LinkedIdsMembers(specs, 0, q, true);
    LinkedIdsMembers(specs, 0, q, false);
    assert r.0[j].preset == ArcPlaces(SpecArcs(specs[j], true));
    assert r.0[j].postset == ArcPlaces(SpecArcs(specs[j], false));
  }

  // ---------------------------------------------------------------------------
  // Structural queries

  /** The entries of `ids` whose coordinate in `v` is positive. */
  function PositiveIds(ids: seq<nat>, v: seq<real>): (r: set<nat>)
    requires forall k | 0 <= k < |ids| :: ids[k] < |v|
    ensures forall x :: x in r <==> exists k | 0 <= k < |ids| :: ids[k] == x && v[x] > 0.0
    decreases |ids|
  {
    if |ids| == 0 then {}
    else
      var rest := PositiveIds(ids[1..], v);
      assert forall x :: (exists k | 0 <= k < |ids| :: ids[k] == x && v[x] > 0.0) <==>
        ((ids[0] == x && v[x] > 0.0) || exists k | 0 <= k < |ids[1..]| :: ids[1..][k] == x && v[x] > 0.0) by {
        forall x, k | 0 <= k < |ids| && ids[k] == x && v[x] > 0.0 && k > 0
          ensures ids[1..][k - 1] == x
        {
        }
      }
      (if v[ids[0]] > 0.0 then {ids[0]} else {}) + rest
  }

  lemma PositiveIdsOfPositions(ids: seq<nat>, v: seq<real>)
    requires |ids| == |v| && forall k | 0 <= k < |ids| :: ids[k] == k
    ensures forall x: nat :: x in PositiveIds(ids, v) <==> x < |v| && v[x] > 0.0
  {
    forall x: nat | x < |v| && v[x] > 0.0
      ensures x in PositiveIds(ids, v)
    {
      assert ids[x] == x;
    }
  }

  function PlaceIdList(net: Net): (ids: seq<nat>)
    ensures |ids| == net.p() && forall i | 0 <= i < net.p() :: ids[i] == net.places[i].id
  {
    seq(net.p(), i requires 0 <= i < net.p() => net.places[i].id)
  }

  function TransitionIdList(net: Net): (ids: seq<nat>)
    ensures |ids| == net.t() && forall j | 0 <= j < net.t() :: ids[j] == net.transitions[j].id
  {
    seq(net.t(), j requires 0 <= j < net.t() => net.transitions[j].id)
  }

  /** `Net.supportMarking`: the places whose entry in `m` is positive. */
  function SupportMarking(net: Net, m: seq<real>): (r: set<nat>)
    requires ValidNet(net) && |m| == net.p()
    ensures forall q :: q in r <==> 0 <= q < net.p() && m[q] > 0.0
  {
    var ids := PlaceIdList(net);
    PositiveIdsOfPositions(ids, m);
    PositiveIds(ids, m)
  }

  /** `Net.supportTransitionVector`: the transitions whose entry in `v` is positive. */
  function SupportTransitionVector(net: Net, v: seq<real>): (r: set<nat>)
    requires ValidNet(net) && |v| == net.t()
    ensures forall j :: j in r <==> 0 <= j < net.t() && v[j] > 0.0
  {
    var ids := TransitionIdList(net);
    PositiveIdsOfPositions(ids, v);
    PositiveIds(ids, v)
  }

  /** `Net.restriction`: a fresh vector of length p that agrees with `m` on the
      places of `P` and is zero elsewhere (`m` itself is a value and stays as it is). */
  method Restriction(net: Net, m: seq<real>, P: set<nat>) returns (marking: seq<real>)
    requires ValidNet(net) && |m| == net.p()
    requires forall q | q in P :: q < net.p()
    ensures |marking| == net.p()
    ensures forall q | 0 <= q < net.p() :: marking[q] == if q in P then m[q] else 0.0
  {
    marking := Vectors.Zeros(net.p());
    var todo := P;
    while todo != {}
      invariant todo <= P && |marking| == net.p()
      invariant forall q | 0 <= q < net.p() :: marking[q] == if q in P - todo then m[q] else 0.0
      decreases |todo|
    {
      var q :| q in todo;
      marking := marking[net.places[q].id := m[net.places[q].id]];
      todo := todo - {q};
    }
  }

  /** Adds (when `plus`) or subtracts the weight of every arc of `arcs` to column
      `j` of `C`, in the row of the arc's place. */
  function AddArcs(C: seq<seq<real>>, arcs: seq<Arc>, j: nat, plus: bool): (r: seq<seq<real>>)
    requires ArcsWithin(arcs, |C|)
    requires forall i | 0 <= i < |C| :: j < |C[i]|
    ensures |r| == |C|
    ensures forall i | 0 <= i < |C| :: |r[i]| == |C[i]|
    ensures forall i, k | 0 <= i < |C| && 0 <= k < |C[i]| ::
      r[i][k] == C[i][k] + (if k != j then 0.0 else if plus then WeightAt(arcs, i) else -WeightAt(arcs, i))
    decreases |arcs|
  {
    if |arcs| == 0 then C
    else
      var i := arcs[0].place;
      var w := if plus then arcs[0].weight else -arcs[0].weight;
      AddArcs(C[i := C[i][j := C[i][j] + w]], arcs[1..], j, plus)
  }

  /** Adds the out-arc weights of `tr` to column `j` of `C`, then subtracts its in-arc weights. */
  function AddColumn(C: seq<seq<real>>, tr: Transition, j: nat): (r: seq<seq<real>>)
    requires ArcsWithin(tr.inArcs, |C|) && ArcsWithin(tr.outArcs, |C|)
    requires forall i | 0 <= i < |C| :: j < |C[i]|
    ensures |r| == |C|
    ensures forall i | 0 <= i < |C| :: |r[i]| == |C[i]|
    ensures forall i, k | 0 <= i < |C| && 0 <= k < |C[i]| ::
      r[i][k] == C[i][k] + (if k == j then Effect(tr, i) else 0.0)
  {
    AddArcs(AddArcs(C, tr.outArcs, j, true), tr.inArcs, j, false)
  }

  /** The net effect of firing `tr` once on place `i`: produced minus consumed weight. */
  function Effect(tr: Transition, i: nat): real {
    WeightAt(tr.outArcs, i) - WeightAt(tr.inArcs, i)
  }

  /** `Net.incidenceMatrix(Tp)` before its conversion to CSR: a p×t matrix whose
      column `j` is, for `j` in `Tp`, the out-arc weight minus the in-arc weight
      of transition `j` at each place, and is zero for every other transition. */
  method IncidenceMatrix(net: Net, Tp: set<nat>) returns (C: seq<seq<real>>)
    requires ValidNet(net)
    requires forall j | j in Tp :: j < net.t()
    ensures |C| == net.p() && forall i | 0 <= i < net.p() :: |C[i]| == net.t()
    ensures forall i, j | 0 <= i < net.p() && 0 <= j < net.t() ::
      C[i][j] == if j in Tp then Effect(net.transitions[j], i) else 0.0
  {
    C := seq(net.p(), i => Vectors.Zeros(net.t()));
    var todo := Tp;
    ghost var done: set<nat> := {};
    while todo != {}
      invariant todo <= Tp && done == Tp - todo
      invariant |C| == net.p() && forall i | 0 <= i < net.p() :: |C[i]| == net.t()
      invariant forall i, j | 0 <= i < net.p() && 0 <= j < net.t() ::
        C[i][j] == if j in done then Effect(net.transitions[j], i) else 0.0
      decreases |todo|
    {
      var j :| j in todo;
      var tr := net.transitions[j];
      assert TransitionWithin(tr, net.p()) && tr.id == j;
      C := AddColumn(C, tr, tr.id);
      todo := todo - {j};
      done := done + {j};
    }
    assert done == Tp;
  }
}
