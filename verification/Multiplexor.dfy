/** Multiplexer allocation: every register group and every functional unit
    that is shared by more than one value needs a multiplexer in front of
    it, with one input per sharer. */
module Multiplexor {
  import opened Scheduler

  /** The muxes for a list of groups with the given sizes, group k bound to
      bound[k]: one per group of more than one member, in group order. */
  function MuxesFor(sizes: seq<int>, bound: seq<string>): (r: seq<Mux>)
    requires |sizes| == |bound|
    ensures |r| <= |sizes|
  {
    if |sizes| == 0 then []
    else
      var k := |sizes| - 1;
      MuxesFor(sizes[..k], bound[..k]) + (if sizes[k] > 1 then [Mux(sizes[k], bound[k], k)] else [])
  }

  function GroupSizes(groups: seq<seq<nat>>): (r: seq<int>)
    ensures |r| == |groups|
  {
    seq(|groups|, k requires 0 <= k < |groups| => |groups[k]|)
  }

  function UnitSizes(units: seq<Resource>): (r: seq<int>)
    ensures |r| == |units|
  {
    seq(|units|, k requires 0 <= k < |units| => |units[k].clique|)
  }

  function UnitKinds(units: seq<Resource>): (r: seq<string>)
    ensures |r| == |units|
  {
    seq(|units|, k requires 0 <= k < |units| => units[k].kind)
  }

  /** Register group muxes are bound to "REG". */
  function RegBound(n: nat): (r: seq<string>)
    ensures |r| == n
  {
    seq(n, _ => "REG")
  }

  /** Every mux points at a group of more than one member, has that
      group's size as its input count and carries the group's binding. */
  lemma {:induction false} MuxesForSound(sizes: seq<int>, bound: seq<string>)
    requires |sizes| == |bound|
    ensures forall p | 0 <= p < |MuxesFor(sizes, bound)| ::
      && 0 <= MuxesFor(sizes, bound)[p].resourceIndex < |sizes|
      && MuxesFor(sizes, bound)[p].numInputs == sizes[MuxesFor(sizes, bound)[p].resourceIndex] >= 2
      && MuxesFor(sizes, bound)[p].resourceBoundTo == bound[MuxesFor(sizes, bound)[p].resourceIndex]
  {
    if |sizes| > 0 {
      var k := |sizes| - 1;
      var init := MuxesFor(sizes[..k], bound[..k]);
      MuxesForSound(sizes[..k], bound[..k]);
      var r := MuxesFor(sizes, bound);
      forall p | 0 <= p < |r|
        ensures 0 <= r[p].resourceIndex < |sizes| && r[p].numInputs == sizes[r[p].resourceIndex] >= 2
        ensures r[p].resourceBoundTo == bound[r[p].resourceIndex]
      {
        if p < |init| {
          assert r[p] == init[p];
          assert sizes[..k][init[p].resourceIndex] == sizes[init[p].resourceIndex];
          assert bound[..k][init[p].resourceIndex] == bound[init[p].resourceIndex];
        }
      }
    }
  }

  /** The muxes follow group order: their indexes ascend, so no group gets
      two. */
  lemma {:induction false} MuxesForAscending(sizes: seq<int>, bound: seq<string>)
    requires |sizes| == |bound|
    ensures forall p | 0 <= p < |MuxesFor(sizes, bound)| :: MuxesFor(sizes, bound)[p].resourceIndex < |sizes|
    ensures forall p, q | 0 <= p < q < |MuxesFor(sizes, bound)| ::
      MuxesFor(sizes, bound)[p].resourceIndex < MuxesFor(sizes, bound)[q].resourceIndex
  {
    if |sizes| > 0 {
      var k := |sizes| - 1;
      var init := MuxesFor(sizes[..k], bound[..k]);
      MuxesForAscending(sizes[..k], bound[..k]);
      var r := MuxesFor(sizes, bound);
      forall p | 0 <= p < |r| ensures r[p].resourceIndex < |sizes| {
        if p < |init| {
          assert r[p] == init[p];
        }
      }
      forall p, q | 0 <= p < q < |r| ensures r[p].resourceIndex < r[q].resourceIndex {
        assert r[p] == init[p];
        if q < |init| {
          assert r[q] == init[q];
        }
      }
    }
  }

  /** Some mux in front of group k. */
  predicate HasMux(muxes: seq<Mux>, k: int) {
    exists p | 0 <= p < |muxes| :: muxes[p].resourceIndex == k
  }

  /** Every group of more than one member has a mux. */
  lemma {:induction false} MuxesForComplete(sizes: seq<int>, bound: seq<string>)
    requires |sizes| == |bound|
    ensures forall j | 0 <= j < |sizes| && sizes[j] > 1 :: HasMux(MuxesFor(sizes, bound), j)
  {
    if |sizes| > 0 {
      var last := |sizes| - 1;
      var init := MuxesFor(sizes[..last], bound[..last]);
      MuxesForComplete(sizes[..last], bound[..last]);
      var r := MuxesFor(sizes, bound);
      forall j | 0 <= j < |sizes| && sizes[j] > 1 ensures HasMux(r, j) {
        if j < last {
          assert sizes[..last][j] == sizes[j];
          var p :| 0 <= p < |init| && init[p].resourceIndex == j;
          assert r[p] == init[p];
        } else {
          assert r == init + [Mux(sizes[last], bound[last], last)];
          assert r[|init|].resourceIndex == j;
        }
      }
    }
  }

  /** The groups of more than one member. */
  function SharedGroups(sizes: seq<int>): set<int> {
    set k | 0 <= k < |sizes| && sizes[k] > 1
  }

  /** There are exactly as many muxes as shared groups. */
  lemma {:induction false} MuxesForCountsShared(sizes: seq<int>, bound: seq<string>)
    requires |sizes| == |bound|
    ensures |MuxesFor(sizes, bound)| == |SharedGroups(sizes)|
  {
    if |sizes| > 0 {
      var k := |sizes| - 1;
      MuxesForCountsShared(sizes[..k], bound[..k]);
      var below := SharedGroups(sizes[..k]);
      assert SharedGroups(sizes) == if sizes[k] > 1 then below + {k} else below by {
        forall j ensures j in SharedGroups(sizes) <==> j in (if sizes[k] > 1 then below + {k} else below) {
          if 0 <= j < k {
            assert sizes[..k][j] == sizes[j];
          }
        }
      }
      assert k !in below;
    } else {
      assert SharedGroups(sizes) == {};
    }
  }

  /** The muxes of the datapath: one per shared register group, bound to
      "REG", then one per shared functional unit, bound to its type. */
  function DatapathMuxes(groups: seq<seq<nat>>, units: seq<Resource>): (r: seq<Mux>)
    ensures |r| <= |groups| + |units|
  {
    MuxesFor(GroupSizes(groups), RegBound(|groups|)) + MuxesFor(UnitSizes(units), UnitKinds(units))
  }

  /** allocateMultiplexers: first a mux for each shared register group,
      then one for each shared functional unit, bound to the unit's type;
      the groups and units themselves are not changed. */
  method AllocateMultiplexers(s: Session)
    modifies s`muxResources
    ensures s.muxResources == old(s.muxResources) + DatapathMuxes(s.regResources, s.opResources)
  {
    ghost var base := s.muxResources;
    ghost var sizes, bound := GroupSizes(s.regResources), RegBound(|s.regResources|);
    var i := 0;
    while i < |s.regResources|
      invariant 0 <= i <= |s.regResources|
      invariant s.muxResources == base + MuxesFor(sizes[..i], bound[..i])
    {
      assert sizes[..i + 1][..i] == sizes[..i] && bound[..i + 1][..i] == bound[..i];
      if |s.regResources[i]| > 1 {
        s.muxResources := s.muxResources + [Mux(|s.regResources[i]|, "REG", i)];
      }
      i := i + 1;
    }
    assert sizes[..i] == sizes && bound[..i] == bound;
    ghost var withRegs := s.muxResources;
    sizes, bound := UnitSizes(s.opResources), UnitKinds(s.opResources);
    i := 0;
    while i < |s.opResources|
      invariant 0 <= i <= |s.opResources|
      invariant s.muxResources == withRegs + MuxesFor(sizes[..i], bound[..i])
    {
      assert sizes[..i + 1][..i] == sizes[..i] && bound[..i + 1][..i] == bound[..i];
      if |s.opResources[i].clique| > 1 {
        s.muxResources := s.muxResources + [Mux(|s.opResources[i].clique|, s.opResources[i].kind, i)];
      }
      i := i + 1;
    }
    assert sizes[..i] == sizes && bound[..i] == bound;
    assert s.muxResources == base + DatapathMuxes(s.regResources, s.opResources);
  }
}
