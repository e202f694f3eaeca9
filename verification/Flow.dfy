/** The synthesis flow of main: read the design file, schedule it, bind
    operations to functional units, group registers, place multiplexers and
    lay out the control bus, each stage building on what the earlier ones
    left in the session. */
module Flow {
  import opened Common
  import opened CliquePartition
  import opened Scheduler
  import opened AllocateBinding
  import opened AllocateReg
  import opened Multiplexor
  import opened Dcs
  import opened ControlBus

  /** Every operation is on exactly one unit, every unit is sound, and the
      units are the cliques the partitioner's rules build. */
  ghost predicate UnitsBound(ops: seq<Operation>, units: seq<Resource>) {
    && IsPartition(|ops|, Units(units))
    && (forall a | 0 <= a < |units| :: IsUnit(ops, units[a]))
    && BuiltByRules(FuCompatGraph(ops), Units(units))
  }

  /** Every register is in exactly one group, the registers of a group can
      share storage, and the groups are the cliques the partitioner's rules
      build. */
  ghost predicate RegistersGrouped(regs: seq<Reg>, groups: seq<seq<nat>>) {
    && IsPartition(|regs|, groups)
    && (forall a | 0 <= a < |groups| :: SharesStorage(regs, groups[a]))
    && BuiltByRules(RegCompatGraph(regs), groups)
  }

  /** The allocation stages of main on a scheduled design: units, register
      groups, multiplexers and the control-bus layout, each stage keeping
      what the earlier ones built. */
  method Allocate(s: Session) returns (top: int, slices: seq<Slice>)
    requires |s.operations| <= MaxCliques && |s.registers| + |s.inputs| + |s.outputs| <= MaxCliques
    requires s.opResources == [] && s.regResources == [] && s.muxResources == []
    modifies s`funcCompGraph, s`opResources, s`registers, s`regCompGraph, s`regResources, s`muxResources
    ensures s.funcCompGraph == FuCompatGraph(s.operations)
    ensures |s.registers| == |old(s.registers)| + |s.inputs| + |s.outputs|
    ensures forall k | 0 <= k < |s.registers| ::
      s.registers[k] == Refresh(s.operations,
        (old(s.registers) + InputRegs(s.operations, s.inputs) + OutputRegs(s.operations, s.outputs))[k])
    ensures s.regCompGraph == RegCompatGraph(s.registers)
    ensures UnitsBound(s.operations, s.opResources)
    ensures RegistersGrouped(s.registers, s.regResources)
    ensures s.muxResources == DatapathMuxes(s.regResources, s.opResources)
    ensures top == |s.regResources| + SumWidths(s.muxResources) - 1
    ensures |slices| == |s.muxResources|
    ensures forall i | 0 <= i < |slices| :: slices[i] == SliceOf(|s.regResources|, s.muxResources, i)
  {
    ghost var ops := s.operations;
    AllocateFunctionalUnits(s);
    ghost var units := s.opResources;
    assert UnitsBound(ops, units);
    assert s.muxResources == [];
    AllocateRegisters(s);
    ghost var regs, groups := s.registers, s.regResources;
    assert RegistersGrouped(regs, groups);
    assert s.muxResources == [] && s.opResources == units;
    AllocateMultiplexers(s);
    assert s.muxResources == DatapathMuxes(groups, units);
    assert s.operations == ops && s.opResources == units && s.registers == regs && s.regResources == groups;
    top := ControlBusTop(s);
    slices := MuxSelectSlices(s);
  }

  /** Every operation has a step in 1..|ops| and is ready at that step. */
  ghost predicate AsapScheduled(inputs: seq<string>, ops: seq<Operation>) {
    forall k | 0 <= k < |ops| :: 1 <= ops[k].timestep <= |ops| && IsAsapStep(inputs, ops, k)
  }

  /** The session holds the declarations of file f and its operations,
      whose steps may have been assigned since. */
  ghost predicate Holds(s: Session, f: InputFile)
    reads s
  {
    && s.inputs == Names(f.inputs) && s.inputBits == FirstWidth(f.inputs, 0)
    && s.outputs == Names(f.outputs) && s.outputBits == FirstWidth(f.outputs, 0)
    && s.registers == DeclaredRegs(f.regs) && s.registerBits == FirstWidth(f.regs, 0)
    && SameButTimesteps(Operations(f.ops), s.operations) && s.operationBits == FirstOpWidth(f.ops, 0)
  }

  /** The first half of main: read the design file into a new session and
      schedule it. False exactly when the file is malformed or some
      operation can never be scheduled. */
  method Load(tokens: seq<string>) returns (s: Session, ok: bool)
    ensures fresh(s)
    ensures s.opResources == [] && s.regResources == [] && s.muxResources == []
    ensures ParseFile(tokens, Layout).Some? ==> Holds(s, ParseFile(tokens, Layout).value)
    ensures ok ==> ParseFile(tokens, Layout).Some? && AsapScheduled(s.inputs, s.operations)
    ensures !ok ==> ParseFile(tokens, Layout).None? || Stuck(s.inputs, s.operations)
  {
    s := new Session();
    ok := ReadInputFile(s, tokens, Layout);
    if !ok {
      return;
    }
    assert forall k | 0 <= k < |s.operations| :: s.operations[k].timestep == 0;
    ok := CreateASAP(s);
  }

  /** main: read the file, schedule, bind operations to units, allocate
      registers and multiplexers, and lay out the control bus. False where
      the source never finishes (a bad file, an unschedulable operation) or
      where the design exceeds the partitioner's fixed capacity. */
  method Synthesize(tokens: seq<string>) returns (s: Session, ok: bool, top: int, slices: seq<Slice>)
    ensures ok ==> ParseFile(tokens, Layout).Some?
    ensures !ok ==>
      || ParseFile(tokens, Layout).None?
      || Stuck(s.inputs, s.operations)
      || |s.operations| > MaxCliques || |s.registers| + |s.inputs| + |s.outputs| > MaxCliques
    ensures ParseFile(tokens, Layout).Some? ==>
      var f := ParseFile(tokens, Layout).value;
      s.inputs == Names(f.inputs) && s.outputs == Names(f.outputs) && SameButTimesteps(Operations(f.ops), s.operations)
    ensures ok ==> AsapScheduled(s.inputs, s.operations)
    ensures ok ==> UnitsBound(s.operations, s.opResources)
    ensures ok ==> RegistersGrouped(s.registers, s.regResources)
    ensures ok ==> s.muxResources == DatapathMuxes(s.regResources, s.opResources)
    ensures ok ==> top == |s.regResources| + SumWidths(s.muxResources) - 1
    ensures ok ==> |slices| == |s.muxResources|
    ensures ok ==> forall i | 0 <= i < |slices| :: slices[i] == SliceOf(|s.regResources|, s.muxResources, i)
  {
    top, slices := -1, [];
    s, ok := Load(tokens);
    if !ok {
      return;
    }
    if |s.operations| > MaxCliques || |s.registers| + |s.inputs| + |s.outputs| > MaxCliques {
      // beyond the MAXCLIQUES slots of the partitioner
      ok := false;
      return;
    }
    ghost var inputs, ops := s.inputs, s.operations;
    assert AsapScheduled(inputs, ops);
    top, slices := Allocate(s);
  }
}
