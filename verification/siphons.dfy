/** `largestSiphon` and `largestTrap` of tasks/separators.py. Both start from
    the places a marking leaves empty and evict places one at a time, keeping
    for every transition of `Up` a counter of the candidate places it touches.
    The two functions are the same algorithm with the roles of a place's
    preset and postset swapped, so one method parametrised by `dual` models
    both. A candidate set is a 0/1 vector over the places. */
module SiphonsTraps {

  import opened PetriNet

  /** The transitions a candidate place is counted against: the transitions
      consuming from place `i` (siphon), or producing into it (trap). */
  function Out(net: Net, i: nat, dual: bool): set<nat>
    requires i < net.p()
  {
    if dual then net.places[i].preset else net.places[i].postset
  }

  /** The transitions whose counters decide whether place `i` stays: those
      producing into it (siphon), or consuming from it (trap). */
  function In(net: Net, i: nat, dual: bool): set<nat>
    requires i < net.p()
  {
    if dual then net.places[i].postset else net.places[i].preset
  }

  predicate ZeroOne(v: seq<int>) {
    forall i | 0 <= i < |v| :: v[i] == 0 || v[i] == 1
  }

  /** The places a 0/1 vector selects. */
  function Members(v: seq<int>): set<nat> {
    set i: nat | i < |v| && v[i] == 1
  }

  /** Every transition of `Up` in `In` of a place of `S` is in `Out` of some place of `S`. */
  ghost predicate Closed(net: Net, Up: set<nat>, S: set<nat>, dual: bool) {
    forall i, t | i in S && i < net.p() && t in In(net, i, dual) && t in Up ::
      exists j | j in S && j < net.p() :: t in Out(net, j, dual)
  }

  /** `m` is zero on every place of `S`. */
  ghost predicate Unmarked(m: seq<real>, S: set<nat>) {
    forall i | i in S :: i < |m| && m[i] == 0.0
  }

  /** The number of places among the first `n` that `v` selects and whose `Out` holds `t`. */
  function Count(net: Net, v: seq<int>, t: nat, n: nat, dual: bool): nat
    requires n <= |v| <= net.p()
  {
    if n == 0 then 0
    else Count(net, v, t, n - 1, dual) + (if v[n - 1] == 1 && t in Out(net, n - 1, dual) then 1 else 0)
  }

  /** The number of places among the first `n` that `v` selects. */
  function Ones(v: seq<int>, n: nat): nat
    requires n <= |v|
  {
    if n == 0 then 0 else Ones(v, n - 1) + (if v[n - 1] == 1 then 1 else 0)
  }

  /** The counter of every transition of `Up` is the number of selected places
      it is counted against, and every other counter is 0. */
  ghost predicate CountersExact(net: Net, Up: set<nat>, v: seq<int>, c: seq<int>, dual: bool)
    requires |v| <= net.p()
  {
    && |c| == net.t()
    && forall t | 0 <= t < net.t() :: c[t] == if t in Up then Count(net, v, t, |v|, dual) else 0
  }

  lemma {:induction false} CountPositive(net: Net, v: seq<int>, t: nat, n: nat, dual: bool)
    requires n <= |v| <= net.p()
    ensures Count(net, v, t, n, dual) > 0 <==> exists j | 0 <= j < n :: v[j] == 1 && t in Out(net, j, dual)
  {
    if n > 0 {
      CountPositive(net, v, t, n - 1, dual);
    }
  }

  lemma {:induction false} CountEvict(net: Net, v: seq<int>, t: nat, n: nat, dual: bool, i: nat)
    requires n <= |v| <= net.p() && i < |v| && v[i] == 1
    ensures Count(net, v[i := 0], t, n, dual) ==
      Count(net, v, t, n, dual) - (if i < n && t in Out(net, i, dual) then 1 else 0)
  {
    if n > 0 {
      CountEvict(net, v, t, n - 1, dual, i);
    }
  }

  lemma {:induction false} OnesEvict(v: seq<int>, n: nat, i: nat)
    requires n <= |v| && i < |v| && v[i] == 1
    ensures Ones(v[i := 0], n) == Ones(v, n) - (if i < n then 1 else 0)
  {
    if n > 0 {
      OnesEvict(v, n - 1, i);
    }
  }

  lemma {:induction false} OnesBound(v: seq<int>, n: nat)
    requires n <= |v|
    ensures Ones(v, n) <= n
  {
    if n > 0 {
      OnesBound(v, n - 1);
    }
  }

  /** Adds one to the counter of each transition of `Up` in `Out` of place `i`. */
  method CountPlace(net: Net, Up: set<nat>, c: seq<int>, i: nat, dual: bool) returns (c': seq<int>)
    requires ValidNet(net) && i < net.p() && |c| == net.t()
    ensures |c'| == net.t()
    ensures forall t | 0 <= t < net.t() :: c'[t] == c[t] + (if t in Up && t in Out(net, i, dual) then 1 else 0)
  {
    c' := c;
    var todo := Out(net, i, dual);
    ghost var done: set<nat> := {};
    while todo != {}
      invariant todo + done == Out(net, i, dual) && todo !! done && |c'| == net.t()
      invariant forall t | 0 <= t < net.t() :: c'[t] == c[t] + (if t in Up && t in done then 1 else 0)
      decreases |todo|
    {
      var t :| t in todo;
      if t in Up {
        c' := c'[t := c'[t] + 1];
      }
      todo, done := todo - {t}, done + {t};
    }
  }

  /** The initial counting loop: every selected place adds one to the counter
      of each transition of `Up` it is counted against. */
  method InitCounters(net: Net, Up: set<nat>, v: seq<int>, dual: bool) returns (c: seq<int>)
    requires ValidNet(net) && |v| == net.p()
    ensures CountersExact(net, Up, v, c, dual)
  {
    c := seq(net.t(), _ => 0);
    var i := 0;
    while i < |v|
      invariant 0 <= i <= |v| && |c| == net.t()
      invariant forall t | 0 <= t < net.t() :: c[t] == if t in Up then Count(net, v, t, i, dual) else 0
    {
      if v[i] == 1 {
        c := CountPlace(net, Up, c, i, dual);
      }
      i := i + 1;
    }
  }

  /** Place `i` has a transition of `Up` in its `In` whose counter is 0. */
  predicate Starved(net: Net, Up: set<nat>, c: seq<int>, i: nat, dual: bool)
    requires i < net.p()
  {
    exists t | t in In(net, i, dual) && t in Up && t < |c| :: c[t] == 0
  }

  /** One pass of the `for i in range(net.p)` scan: the first selected place
      that is starved, if any. */
  method FirstEvictable(net: Net, Up: set<nat>, v: seq<int>, c: seq<int>, dual: bool) returns (k: int)
    requires |v| == net.p()
    ensures -1 <= k < net.p()
    ensures k >= 0 ==> v[k] == 1 && Starved(net, Up, c, k, dual)
    ensures forall i | 0 <= i < net.p() && (k < 0 || i < k) :: !(v[i] == 1 && Starved(net, Up, c, i, dual))
  {
    var i := 0;
    while i < net.p()
      invariant 0 <= i <= net.p()
      invariant forall j | 0 <= j < i :: !(v[j] == 1 && Starved(net, Up, c, j, dual))
    {
      if v[i] == 1 && Starved(net, Up, c, i, dual) {
        return i;
      }
      i := i + 1;
    }
    return -1;
  }

  /** The counters while place `i` is being evicted: those of the transitions
      of `Up` in `done` are already one lower. */
  ghost predicate Decremented(net: Net, Up: set<nat>, v: seq<int>, c: seq<int>, done: set<nat>, dual: bool)
    requires |v| <= net.p()
  {
    && |c| == net.t()
    && forall t | 0 <= t < net.t() ::
      c[t] == if t in Up then Count(net, v, t, |v|, dual) - (if t in done then 1 else 0) else 0
  }

  /** Lowering the counter of one more transition counted against the evicted place. */
  lemma EvictStep(net: Net, Up: set<nat>, v: seq<int>, c: seq<int>, i: nat, u: nat, done: set<nat>, dual: bool)
    requires ValidNet(net) && |v| == net.p() && i < net.p() && v[i] == 1
    requires Decremented(net, Up, v, c, done, dual)
    requires u in Out(net, i, dual) && u !in done && u < net.t()
    ensures Decremented(net, Up, v, c[u := if c[u] - 1 > 0 then c[u] - 1 else 0], done + {u}, dual)
  {
    if u in Up {
      CountPositive(net, v, u, |v|, dual);
      assert c[u] == Count(net, v, u, |v|, dual) >= 1;
    }
  }

  /** Once every counter against place `i` is lowered, the counters are those
      of the selection without `i`. */
  lemma EvictDone(net: Net, Up: set<nat>, v: seq<int>, c: seq<int>, i: nat, dual: bool)
    requires ValidNet(net) && |v| == net.p() && i < net.p() && v[i] == 1
    requires Decremented(net, Up, v, c, Out(net, i, dual), dual)
    ensures CountersExact(net, Up, v[i := 0], c, dual)
  {
    forall t | 0 <= t < net.t()
      ensures Count(net, v[i := 0], t, |v|, dual) == Count(net, v, t, |v|, dual) - (if t in Out(net, i, dual) then 1 else 0)
    {
      CountEvict(net, v, t, |v|, dual, i);
    }
  }

  /** Evicting place `i`: it leaves the candidate set, and the counter of every
      transition it was counted against drops by one, clamped at 0. The clamp
      only ever acts on counters of transitions outside `Up`, which stay 0. */
  method Evict(net: Net, Up: set<nat>, v: seq<int>, c: seq<int>, i: nat, dual: bool)
    returns (v': seq<int>, c': seq<int>)
    requires ValidNet(net) && |v| == net.p() && i < net.p() && v[i] == 1
    requires CountersExact(net, Up, v, c, dual)
    ensures v' == v[i := 0]
    ensures CountersExact(net, Up, v', c', dual)
  {
    v', c' := v[i := 0], c;
    var todo := Out(net, i, dual);
    ghost var done: set<nat> := {};
    while todo != {}
      invariant todo + done == Out(net, i, dual) && todo !! done
      invariant Decremented(net, Up, v, c', done, dual)
      decreases |todo|
    {
      var u :| u in todo;
      EvictStep(net, Up, v, c', i, u, done, dual);
      c' := c'[u := if c'[u] - 1 > 0 then c'[u] - 1 else 0];
      todo, done := todo - {u}, done + {u};
    }
    EvictDone(net, Up, v, c', i, dual);
  }

  /** Evicting a starved place keeps every closed set of selected places selected. */
  lemma EvictKeepsClosedSets(net: Net, Up: set<nat>, v: seq<int>, c: seq<int>, i: nat, dual: bool, S: set<nat>)
    requires ValidNet(net) && |v| == net.p() && i < net.p() && v[i] == 1
    requires CountersExact(net, Up, v, c, dual) && Starved(net, Up, c, i, dual)
    requires S <= Members(v) && Closed(net, Up, S, dual)
    ensures S <= Members(v[i := 0])
  {
    if i in S {
      var t :| t in In(net, i, dual) && t in Up && t < |c| && c[t] == 0;
      var j :| j in S && j < net.p() && t in Out(net, j, dual);
      CountPositive(net, v, t, |v|, dual);
      assert false;
    }
  }

  /** The eviction fixpoint shared by `largestSiphon` (`dual` false, `m` the
      source marking) and `largestTrap` (`dual` true, `m` the target marking). */
  method LargestClosed(net: Net, Up: set<nat>, m: seq<real>, dual: bool) returns (v: seq<int>, ghost passes: nat)
    requires ValidNet(net) && |m| == net.p()
    ensures |v| == net.p() && ZeroOne(v)
    ensures Unmarked(m, Members(v))
    ensures Closed(net, Up, Members(v), dual)
    ensures forall S | Unmarked(m, S) && Closed(net, Up, S, dual) :: S <= Members(v)
    ensures passes <= net.p() + 1
  {
    v := seq(net.p(), i requires 0 <= i < net.p() => if m[i] == 0.0 then 1 else 0);
    var c := InitCounters(net, Up, v, dual);
    OnesBound(v, |v|);
    var flag := true;
    passes := 0;
    while flag
      invariant |v| == net.p() && ZeroOne(v) && CountersExact(net, Up, v, c, dual)
      invariant Unmarked(m, Members(v))
      invariant forall S | Unmarked(m, S) && Closed(net, Up, S, dual) :: S <= Members(v)
      invariant !flag ==> Closed(net, Up, Members(v), dual)
      invariant passes + Ones(v, |v|) <= net.p() + (if flag then 0 else 1)
      decreases Ones(v, |v|) + (if flag then 1 else 0)
    {
      flag := false;
      var k := FirstEvictable(net, Up, v, c, dual);
      if k >= 0 {
        forall S | Unmarked(m, S) && Closed(net, Up, S, dual)
          ensures S <= Members(v[k := 0])
        {
          EvictKeepsClosedSets(net, Up, v, c, k, dual, S);
        }
        OnesEvict(v, |v|, k);
        v, c := Evict(net, Up, v, c, k, dual);
        flag := true;
      } else {
        forall i, t | i in Members(v) && i < net.p() && t in In(net, i, dual) && t in Up
          ensures exists j | j in Members(v) && j < net.p() :: t in Out(net, j, dual)
        {
          assert !Starved(net, Up, c, i, dual);
          CountPositive(net, v, t, |v|, dual);
        }
      }
      passes := passes + 1;
    }
  }

  /** Every transition of `Up` that produces into `Q` consumes from `Q`. */
  ghost predicate IsSiphon(net: Net, Up: set<nat>, Q: set<nat>) {
    forall i, t | i in Q && i < net.p() && t in net.places[i].preset && t in Up ::
      exists j | j in Q && j < net.p() :: t in net.places[j].postset
  }

  /** Every transition of `Up` that consumes from `R` produces into `R`. */
  ghost predicate IsTrap(net: Net, Up: set<nat>, R: set<nat>) {
    forall i, t | i in R && i < net.p() && t in net.places[i].postset && t in Up ::
      exists j | j in R && j < net.p() :: t in net.places[j].preset
  }

  /** `largestSiphon(net, Up, msrc)`: the largest siphon of the net restricted
      to `Up` on which `msrc` is zero. */
  method LargestSiphon(net: Net, Up: set<nat>, msrc: seq<real>) returns (vq: seq<int>)
    requires ValidNet(net) && |msrc| == net.p()
    ensures |vq| == net.p() && ZeroOne(vq)
    ensures forall i | 0 <= i < net.p() && vq[i] == 1 :: msrc[i] == 0.0
    ensures IsSiphon(net, Up, Members(vq))
    ensures forall Q | Unmarked(msrc, Q) && IsSiphon(net, Up, Q) :: Q <= Members(vq)
  {
    ghost var passes;
    vq, passes := LargestClosed(net, Up, msrc, false);
    assert forall i | 0 <= i < net.p() && vq[i] == 1 :: i in Members(vq);
    assert forall Q :: IsSiphon(net, Up, Q) == Closed(net, Up, Q, false);
  }

  /** `largestTrap(net, Up, mtgt)`: the largest trap of the net restricted to
      `Up` on which `mtgt` is zero. */
  method LargestTrap(net: Net, Up: set<nat>, mtgt: seq<real>) returns (vr: seq<int>)
    requires ValidNet(net) && |mtgt| == net.p()
    ensures |vr| == net.p() && ZeroOne(vr)
    ensures forall i | 0 <= i < net.p() && vr[i] == 1 :: mtgt[i] == 0.0
    ensures IsTrap(net, Up, Members(vr))
    ensures forall R | Unmarked(mtgt, R) && IsTrap(net, Up, R) :: R <= Members(vr)
  {
    ghost var passes;
    vr, passes := LargestClosed(net, Up, mtgt, true);
    assert forall i | 0 <= i < net.p() && vr[i] == 1 :: i in Members(vr);
    assert forall R :: IsTrap(net, Up, R) == Closed(net, Up, R, true);
  }
}
