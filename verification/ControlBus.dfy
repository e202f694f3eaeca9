/** The control bus of the generated datapath: one write-enable bit per
    register group from bit 0 up, then one select field per multiplexer,
    each wide enough to number its inputs. */
module ControlBus {
  import opened Scheduler

  function Pow2(k: nat): (r: nat)
    ensures r >= 1
  {
    if k == 0 then 1 else 2 * Pow2(k - 1)
  }

  lemma {:induction false} Pow2Monotone(a: nat, b: nat)
    requires a <= b
    ensures Pow2(a) <= Pow2(b)
    decreases b
  {
    if a < b {
      Pow2Monotone(a, b - 1);
    }
  }

  /** Select width of a mux with k inputs: the least s >= 1 with 2^s >= k. */
  function SelectWidth(k: int): (s: nat)
    ensures s >= 1 && k <= Pow2(s)
    ensures s == 1 || Pow2(s - 1) < k
    decreases k
  {
    if k <= 2 then 1 else 1 + SelectWidth((k + 1) / 2)
  }

  /** No other width has both properties. */
  lemma SelectWidthUnique(k: int, s: nat)
    requires s >= 1 && k <= Pow2(s) && (s == 1 || Pow2(s - 1) < k)
    ensures s == SelectWidth(k)
  {
    var w := SelectWidth(k);
    if s < w {
      Pow2Monotone(s, w - 1);
    } else if w < s {
      Pow2Monotone(w, s - 1);
    }
  }

  /** The do-while loop of writeVHDL that sizes one mux's select field. */
  method MuxSelectBits(numInputs: int) returns (muxSelBits: int)
    ensures muxSelBits == SelectWidth(numInputs)
  {
    muxSelBits := 0;
    var muxMaxInputs := 1;
    // first pass of the do-while
    muxSelBits := muxSelBits + 1;
    muxMaxInputs := muxMaxInputs * 2;
    while numInputs > muxMaxInputs
      invariant muxSelBits >= 1 && muxMaxInputs == Pow2(muxSelBits)
      invariant muxSelBits == 1 || Pow2(muxSelBits - 1) < numInputs
      decreases numInputs - muxMaxInputs
    {
      muxSelBits := muxSelBits + 1;
      muxMaxInputs := muxMaxInputs * 2;
    }
    SelectWidthUnique(numInputs, muxSelBits);
  }

  /** Total select width of the muxes. */
  function SumWidths(muxes: seq<Mux>): (r: nat)
  {
    if |muxes| == 0 then 0 else SumWidths(muxes[..|muxes| - 1]) + SelectWidth(muxes[|muxes| - 1].numInputs)
  }

  /** The top index of the ctrl bus: one enable per register group plus
      every select width, minus one. */
  method ControlBusTop(s: Session) returns (controlBits: int)
    ensures controlBits == |s.regResources| + SumWidths(s.muxResources) - 1
  {
    controlBits := 0;
    controlBits := controlBits + |s.regResources|;
    var i := 0;
    while i < |s.muxResources|
      invariant 0 <= i <= |s.muxResources|
      invariant controlBits == |s.regResources| + SumWidths(s.muxResources[..i])
    {
      var muxSelBits := MuxSelectBits(s.muxResources[i].numInputs);
      assert s.muxResources[..i + 1][..i] == s.muxResources[..i];
      controlBits := controlBits + muxSelBits;
      i := i + 1;
    }
    assert s.muxResources[..i] == s.muxResources;
    controlBits := controlBits - 1;
  }

  /** The writeVHDL loop that instantiates one register per register group
      and wires group i's write enable to ctrl bit i: the enables are
      distinct and lie below every select field. */
  method RegisterEnables(s: Session) returns (enables: seq<int>)
    ensures |enables| == |s.regResources|
    ensures forall i | 0 <= i < |enables| :: enables[i] == i
    ensures forall i, j | 0 <= i < j < |enables| :: enables[i] != enables[j]
    ensures forall i, k | 0 <= i < |enables| && 0 <= k < |s.muxResources| ::
      0 <= enables[i] < SliceOf(|s.regResources|, s.muxResources, k).lo
  {
    enables := [];
    var i := 0;
    while i < |s.regResources|
      invariant 0 <= i <= |s.regResources| && |enables| == i
      invariant forall j | 0 <= j < i :: enables[j] == j
    {
      enables := enables + [i];
      i := i + 1;
    }
  }

  /** The ctrl bits `hi downto lo` driving one mux's select input. */
  datatype Slice = Slice(hi: int, lo: int)

  /** Mux i's select field: it starts after the register enables and the
      fields of the muxes before it. */
  function SliceOf(nRegGroups: nat, muxes: seq<Mux>, i: nat): (r: Slice)
    requires i < |muxes|
  {
    var lo := nRegGroups + SumWidths(muxes[..i]);
    Slice(lo + SelectWidth(muxes[i].numInputs) - 1, lo)
  }

  /** The writeVHDL loop that wires each mux's select input to its slice of
      the ctrl bus. */
  method MuxSelectSlices(s: Session) returns (slices: seq<Slice>)
    ensures |slices| == |s.muxResources|
    ensures forall i | 0 <= i < |slices| :: slices[i] == SliceOf(|s.regResources|, s.muxResources, i)
  {
    var controlBitIndex := |s.regResources|;
    slices := [];
    var i := 0;
    while i < |s.muxResources|
      invariant 0 <= i <= |s.muxResources| && |slices| == i
      invariant controlBitIndex == |s.regResources| + SumWidths(s.muxResources[..i])
      invariant forall j | 0 <= j < i :: slices[j] == SliceOf(|s.regResources|, s.muxResources, j)
    {
      var muxSelBits := MuxSelectBits(s.muxResources[i].numInputs);
      slices := slices + [Slice(controlBitIndex + (muxSelBits - 1), controlBitIndex)];
      assert s.muxResources[..i + 1][..i] == s.muxResources[..i];
      controlBitIndex := controlBitIndex + muxSelBits;
      i := i + 1;
    }
  }

  /** The fields are contiguous: the first starts right after the register
      enables, each next one right after the previous, and the last ends at
      the top of the bus; each field is as wide as its mux needs. */
  lemma {:induction false} SlicesContiguous(nRegGroups: nat, muxes: seq<Mux>)
    ensures forall i | 0 <= i < |muxes| ::
      SliceOf(nRegGroups, muxes, i).hi - SliceOf(nRegGroups, muxes, i).lo + 1 == SelectWidth(muxes[i].numInputs)
    ensures |muxes| > 0 ==> SliceOf(nRegGroups, muxes, 0).lo == nRegGroups
    ensures forall i | 0 <= i < |muxes| - 1 :: SliceOf(nRegGroups, muxes, i + 1).lo == SliceOf(nRegGroups, muxes, i).hi + 1
    ensures |muxes| > 0 ==> SliceOf(nRegGroups, muxes, |muxes| - 1).hi == nRegGroups + SumWidths(muxes) - 1
  {
    forall i | 0 <= i < |muxes| - 1
      ensures SliceOf(nRegGroups, muxes, i + 1).lo == SliceOf(nRegGroups, muxes, i).hi + 1
    {
      assert muxes[..i + 1][..i] == muxes[..i];
      assert SumWidths(muxes[..i + 1]) == SumWidths(muxes[..i]) + SelectWidth(muxes[i].numInputs);
    }
    if |muxes| > 0 {
      var last := |muxes| - 1;
      assert muxes[..0] == [];
      assert muxes[..|muxes|] == muxes;
      assert SumWidths(muxes) == SumWidths(muxes[..last]) + SelectWidth(muxes[last].numInputs);
    }
  }

  /** The select widths of a prefix never exceed those of a longer one. */
  lemma {:induction false} SumWidthsPrefix(muxes: seq<Mux>, i: nat, j: nat)
    requires i <= j <= |muxes|
    ensures SumWidths(muxes[..i]) <= SumWidths(muxes[..j])
    ensures i < j ==> SumWidths(muxes[..i]) + SelectWidth(muxes[i].numInputs) <= SumWidths(muxes[..j])
    decreases j
  {
    if i < j {
      SumWidthsPrefix(muxes, i, j - 1);
      assert muxes[..j][..j - 1] == muxes[..j - 1];
    }
  }

  /** Every ctrl bit from the end of the register enables up to the top of
      the bus lies in exactly one select field. */
  lemma SlicesPartitionBus(nRegGroups: nat, muxes: seq<Mux>, b: int)
    requires nRegGroups <= b <= nRegGroups + SumWidths(muxes) - 1
    ensures exists i | 0 <= i < |muxes| :: SliceOf(nRegGroups, muxes, i).lo <= b <= SliceOf(nRegGroups, muxes, i).hi
    ensures forall i, j | 0 <= i < |muxes| && 0 <= j < |muxes| &&
      SliceOf(nRegGroups, muxes, i).lo <= b <= SliceOf(nRegGroups, muxes, i).hi &&
      SliceOf(nRegGroups, muxes, j).lo <= b <= SliceOf(nRegGroups, muxes, j).hi :: i == j
  {
    assert muxes[..|muxes|] == muxes;
    SliceFound(nRegGroups, muxes, |muxes|, b);
    forall i, j | 0 <= i < |muxes| && 0 <= j < |muxes| &&
      SliceOf(nRegGroups, muxes, i).lo <= b <= SliceOf(nRegGroups, muxes, i).hi &&
      SliceOf(nRegGroups, muxes, j).lo <= b <= SliceOf(nRegGroups, muxes, j).hi
      ensures i == j
    {
      if i < j {
        SumWidthsPrefix(muxes, i, j);
      } else if j < i {
        SumWidthsPrefix(muxes, j, i);
      }
    }
  }

  /** Every bit of the ctrl bus has exactly one use: a bit below the
      number of register groups is that group's write enable and lies in
      no select field; every other bit lies in exactly one select field. */
  lemma BusBitUse(nRegGroups: nat, muxes: seq<Mux>, b: int)
    requires 0 <= b <= nRegGroups + SumWidths(muxes) - 1
    ensures b < nRegGroups <==>
      forall i | 0 <= i < |muxes| :: !(SliceOf(nRegGroups, muxes, i).lo <= b <= SliceOf(nRegGroups, muxes, i).hi)
    ensures b >= nRegGroups ==> exists i | 0 <= i < |muxes| :: SliceOf(nRegGroups, muxes, i).lo <= b <= SliceOf(nRegGroups, muxes, i).hi
    ensures forall i, j | 0 <= i < |muxes| && 0 <= j < |muxes| &&
      SliceOf(nRegGroups, muxes, i).lo <= b <= SliceOf(nRegGroups, muxes, i).hi &&
      SliceOf(nRegGroups, muxes, j).lo <= b <= SliceOf(nRegGroups, muxes, j).hi :: i == j
  {
    if b >= nRegGroups {
      SlicesPartitionBus(nRegGroups, muxes, b);
    }
  }

  lemma {:induction false} SliceFound(nRegGroups: nat, muxes: seq<Mux>, n: nat, b: int)
    requires n <= |muxes| && nRegGroups <= b <= nRegGroups + SumWidths(muxes[..n]) - 1
    ensures exists i | 0 <= i < n :: SliceOf(nRegGroups, muxes, i).lo <= b <= SliceOf(nRegGroups, muxes, i).hi
  {
    assert n > 0;
    var last := n - 1;
    assert muxes[..n][..last] == muxes[..last];
    if b < nRegGroups + SumWidths(muxes[..last]) {
      SliceFound(nRegGroups, muxes, last, b);
    } else {
      assert SliceOf(nRegGroups, muxes, last).lo <= b <= SliceOf(nRegGroups, muxes, last).hi;
    }
  }
}
