/** Register allocation: every declared register, input and output gets a
    live interval [first, last] of control steps; registers whose intervals
    do not overlap (touching is allowed) may share one physical register,
    found by partitioning the interval compatibility matrix. */
module AllocateReg {
  import opened Common
  import opened CliquePartition
  import opened Scheduler
  import opened AllocateBinding

  // ---------------------------------------------------------------------
  // Live intervals

  /** How an operation may touch a name. */
  datatype Access =
    | Read      // as an operand
    | Write     // as its output
    | ReadOnly  // as an operand, and not as its output

  predicate Touches(op: Operation, x: string, a: Access) {
    match a
    case Read => op.operand1 == x || op.operand2 == x
    case Write => op.output == x
    case ReadOnly => op.output != x && (op.operand1 == x || op.operand2 == x)
  }

  /** The step of the last-listed operation that touches x in the given way,
      or dflt when none does: what a forward scan that overwrites on every
      hit leaves behind. */
  function LastStep(ops: seq<Operation>, x: string, a: Access, dflt: int): (r: int)
  {
    if |ops| == 0 then dflt
    else if Touches(ops[|ops| - 1], x, a) then ops[|ops| - 1].timestep
    else LastStep(ops[..|ops| - 1], x, a, dflt)
  }

  /** LastStep is the default exactly when nothing touches x, and otherwise
      the step of the last operation touching x. */
  lemma {:induction false} LastStepIsLast(ops: seq<Operation>, x: string, a: Access, dflt: int)
    ensures (forall j | 0 <= j < |ops| :: !Touches(ops[j], x, a)) ==> LastStep(ops, x, a, dflt) == dflt
    ensures forall j | 0 <= j < |ops| && Touches(ops[j], x, a) && (forall k | j < k < |ops| :: !Touches(ops[k], x, a)) ::
      LastStep(ops, x, a, dflt) == ops[j].timestep
  {
    if |ops| > 0 {
      var init := ops[..|ops| - 1];
      LastStepIsLast(init, x, a, dflt);
      forall j | 0 <= j < |init| && Touches(init[j], x, a) ensures Touches(ops[j], x, a) {
      }
    }
  }

  /** Scanning twice with the same rule changes nothing more. */
  lemma {:induction false} LastStepIdempotent(ops: seq<Operation>, x: string, a: Access, dflt: int)
    ensures LastStep(ops, x, a, LastStep(ops, x, a, dflt)) == LastStep(ops, x, a, dflt)
  {
    if |ops| > 0 && !Touches(ops[|ops| - 1], x, a) {
      var init := ops[..|ops| - 1];
      LastStepIdempotent(init, x, a, dflt);
      assert LastStep(ops, x, a, dflt) == LastStep(init, x, a, dflt);
    }
  }

  /** Where nothing writes x, the read-only scan and the read scan agree. */
  lemma {:induction false} ReadOnlyIsRead(ops: seq<Operation>, x: string, dflt: int)
    requires forall j | 0 <= j < |ops| :: ops[j].output != x
    ensures LastStep(ops, x, ReadOnly, dflt) == LastStep(ops, x, Read, dflt)
  {
    if |ops| > 0 {
      ReadOnlyIsRead(ops[..|ops| - 1], x, dflt);
    }
  }

  /** The register of a declared input: first 0, last the step of the last
      operation reading it (0 if none does). */
  function InputReg(ops: seq<Operation>, x: string): (r: Reg)
  {
    Reg(x, 0, LastStep(ops, x, Read, 0))
  }

  /** The register of a declared output: first the step of the last
      operation producing it (0 if none does), last the largest step. */
  function OutputReg(ops: seq<Operation>, x: string): (r: Reg)
  {
    Reg(x, LastStep(ops, x, Write, 0), MaxStep(ops))
  }

  function InputRegs(ops: seq<Operation>, xs: seq<string>): (r: seq<Reg>)
    ensures |r| == |xs|
  {
    if |xs| == 0 then [] else InputRegs(ops, xs[..|xs| - 1]) + [InputReg(ops, xs[|xs| - 1])]
  }

  function OutputRegs(ops: seq<Operation>, xs: seq<string>): (r: seq<Reg>)
    ensures |r| == |xs|
  {
    if |xs| == 0 then [] else OutputRegs(ops, xs[..|xs| - 1]) + [OutputReg(ops, xs[|xs| - 1])]
  }

  /** The second pass over one register: the last operation writing the
      name sets first, the last operation only reading it sets last, and
      without such an operation the old value stays. */
  function Refresh(ops: seq<Operation>, r: Reg): (r': Reg)
  {
    r.(first := LastStep(ops, r.name, Write, r.first), last := LastStep(ops, r.name, ReadOnly, r.last))
  }

  /** The second pass is idempotent: running it again changes nothing. */
  lemma RefreshIdempotent(ops: seq<Operation>, r: Reg)
    ensures Refresh(ops, Refresh(ops, r)) == Refresh(ops, r)
  {
    LastStepIdempotent(ops, r.name, Write, r.first);
    LastStepIdempotent(ops, r.name, ReadOnly, r.last);
  }

  /** The second pass leaves an input register alone when nothing writes
      the input, and an output register alone when nothing reads the
      output; an output read inside the design trades its last = max step
      for the step of the last operation only reading it. */
  lemma RefreshPortRegs(ops: seq<Operation>, x: string)
    ensures (forall j | 0 <= j < |ops| :: ops[j].output != x) ==> Refresh(ops, InputReg(ops, x)) == InputReg(ops, x)
    ensures (forall j | 0 <= j < |ops| :: ops[j].operand1 != x && ops[j].operand2 != x) ==>
      Refresh(ops, OutputReg(ops, x)) == OutputReg(ops, x)
    ensures forall j | 0 <= j < |ops| && Touches(ops[j], x, ReadOnly) && (forall k | j < k < |ops| :: !Touches(ops[k], x, ReadOnly)) ::
      Refresh(ops, OutputReg(ops, x)).last == ops[j].timestep
  {
    LastStepIsLast(ops, x, Write, 0);
    LastStepIsLast(ops, x, ReadOnly, MaxStep(ops));
    LastStepIdempotent(ops, x, Write, 0);
    if forall j | 0 <= j < |ops| :: ops[j].output != x {
      ReadOnlyIsRead(ops, x, LastStep(ops, x, Read, 0));
      LastStepIdempotent(ops, x, Read, 0);
    }
  }

  /** A declared register (first = last = 0) that is written but never
      read keeps last = 0 while first moves to its last write, so
      first <= last does not hold in general. */
  lemma WrittenNeverRead(ops: seq<Operation>, x: string, j: nat)
    requires j < |ops| && ops[j].output == x && ops[j].timestep > 0
    requires forall k | j < k < |ops| :: ops[k].output != x
    requires forall k | 0 <= k < |ops| :: ops[k].operand1 != x && ops[k].operand2 != x
    ensures Refresh(ops, Reg(x, 0, 0)).last == 0
    ensures Refresh(ops, Reg(x, 0, 0)).first == ops[j].timestep > Refresh(ops, Reg(x, 0, 0)).last
  {
    LastStepIsLast(ops, x, Write, 0);
    LastStepIsLast(ops, x, ReadOnly, 0);
  }

  // ---------------------------------------------------------------------
  // The three passes of allocateRegisters

  /** One register per declared input, appended in order. */
  method AppendInputRegisters(s: Session)
    modifies s`registers
    ensures s.registers == old(s.registers) + InputRegs(s.operations, s.inputs)
  {
    var m := |s.operations|;
    ghost var base := s.registers;
    var i := 0;
    while i < |s.inputs|
      invariant 0 <= i <= |s.inputs|
      invariant s.registers == base + InputRegs(s.operations, s.inputs[..i])
    {
      var x := s.inputs[i];
      s.registers := s.registers + [Reg(x, 0, 0)];
      var back := |s.registers| - 1;
      var j := 0;
      while j < m
        invariant 0 <= j <= m && |s.registers| == back + 1
        invariant s.registers[..back] == base + InputRegs(s.operations, s.inputs[..i])
        invariant s.registers[back] == Reg(x, 0, LastStep(s.operations[..j], x, Read, 0))
      {
        assert s.operations[..j + 1][..j] == s.operations[..j];
        if s.operations[j].operand1 == x || s.operations[j].operand2 == x {
          s.registers := s.registers[back := s.registers[back].(last := s.operations[j].timestep)];
        }
        j := j + 1;
      }
      assert s.operations[..m] == s.operations;
      assert s.inputs[..i + 1][..i] == s.inputs[..i];
      assert s.registers == s.registers[..back] + [s.registers[back]];
      i := i + 1;
    }
    assert s.inputs[..i] == s.inputs;
  }

  /** One register per declared output, appended in order. */
  method AppendOutputRegisters(s: Session)
    modifies s`registers
    ensures s.registers == old(s.registers) + OutputRegs(s.operations, s.outputs)
  {
    var m := |s.operations|;
    var maxTimestep := 0;
    ghost var base := s.registers;
    var i := 0;
    while i < |s.outputs|
      invariant 0 <= i <= |s.outputs|
      invariant s.registers == base + OutputRegs(s.operations, s.outputs[..i])
      invariant maxTimestep == if i == 0 then 0 else MaxStep(s.operations)
    {
      var x := s.outputs[i];
      s.registers := s.registers + [Reg(x, 0, 0)];
      var back := |s.registers| - 1;
      var j := 0;
      while j < m
        invariant 0 <= j <= m && |s.registers| == back + 1
        invariant s.registers[..back] == base + OutputRegs(s.operations, s.outputs[..i])
        invariant s.registers[back] == Reg(x, LastStep(s.operations[..j], x, Write, 0), 0)
      {
        assert s.operations[..j + 1][..j] == s.operations[..j];
        if s.operations[j].output == x {
          s.registers := s.registers[back := s.registers[back].(first := s.operations[j].timestep)];
        }
        j := j + 1;
      }
      assert s.operations[..m] == s.operations;
      ghost var before := maxTimestep;
      j := 0;
      while j < m
        invariant 0 <= j <= m
        invariant maxTimestep == if before == 0 then MaxStep(s.operations[..j]) else MaxStep(s.operations)
      {
        assert s.operations[..j + 1][..j] == s.operations[..j];
        if s.operations[j].timestep > maxTimestep {
          maxTimestep := s.operations[j].timestep;
        }
        j := j + 1;
      }
      s.registers := s.registers[back := s.registers[back].(last := maxTimestep)];
      assert s.outputs[..i + 1][..i] == s.outputs[..i];
      assert s.registers == s.registers[..back] + [s.registers[back]];
      i := i + 1;
    }
    assert s.outputs[..i] == s.outputs;
  }

  /** The second pass: every register's interval is refreshed from the
      operations, in list order. */
  method RefreshIntervals(s: Session)
    modifies s`registers
    ensures |s.registers| == |old(s.registers)|
    ensures forall k | 0 <= k < |s.registers| :: s.registers[k] == Refresh(s.operations, old(s.registers)[k])
  {
    var n := |s.registers|;
    var m := |s.operations|;
    ghost var regs0 := s.registers;
    var i := 0;
    while i < n
      invariant 0 <= i <= n && |s.registers| == n
      invariant forall k | 0 <= k < n :: s.registers[k] == if k < i then Refresh(s.operations, regs0[k]) else regs0[k]
    {
      var j := 0;
      while j < m
        invariant 0 <= j <= m && |s.registers| == n
        invariant forall k | 0 <= k < n && k != i :: s.registers[k] == if k < i then Refresh(s.operations, regs0[k]) else regs0[k]
        invariant s.registers[i] == Refresh(s.operations[..j], regs0[i])
      {
        assert s.operations[..j + 1][..j] == s.operations[..j];
        if s.operations[j].output == s.registers[i].name {
          s.registers := s.registers[i := s.registers[i].(first := s.operations[j].timestep)];
        } else if s.operations[j].operand1 == s.registers[i].name || s.operations[j].operand2 == s.registers[i].name {
          s.registers := s.registers[i := s.registers[i].(last := s.operations[j].timestep)];
        }
        j := j + 1;
      }
      assert s.operations[..m] == s.operations;
      i := i + 1;
    }
  }

  // ---------------------------------------------------------------------
  // Register compatibility

  /** Registers i and j may share storage: i is j, or i's interval ends
      no later than j's starts, or starts no earlier than j's ends. */
  predicate RegCompatible(regs: seq<Reg>, i: nat, j: nat)
    requires i < |regs| && j < |regs|
  {
    i == j || regs[i].last <= regs[j].first || regs[i].first >= regs[j].last
  }

  function RegCompatGraph(regs: seq<Reg>): (g: Matrix)
    ensures |g| == |regs| && IsSquare(g)
  {
    seq(|regs|, i requires 0 <= i < |regs| =>
      seq(|regs|, j requires 0 <= j < |regs| => if RegCompatible(regs, i, j) then 1 else 0))
  }

  /** The matrix is 0/1, symmetric and has a 1-diagonal. */
  lemma RegCompatGraphWellFormed(regs: seq<Reg>)
    ensures WellFormed(RegCompatGraph(regs))
    ensures forall i | 0 <= i < |regs| :: RegCompatGraph(regs)[i][i] == 1
  {
    var g := RegCompatGraph(regs);
    forall i, j | 0 <= i < |g| && 0 <= j < |g| ensures g[i][j] == g[j][i] {
      assert RegCompatible(regs, i, j) == RegCompatible(regs, j, i);
    }
  }

  /** Fill regCompGraph row by row, writing each entry and its mirror. */
  method BuildRegCompGraph(s: Session)
    modifies s`regCompGraph
    ensures s.regCompGraph == RegCompatGraph(s.registers)
  {
    var n := |s.registers|;
    ghost var target := RegCompatGraph(s.registers);
    RegCompatGraphWellFormed(s.registers);
    // the source's rows start with undefined contents; every entry is written below
    s.regCompGraph := seq(n, _ => seq(n, _ => 0));
    var i := 0;
    while i < n
      invariant 0 <= i <= n
      invariant Filled(s.regCompGraph, target, i, 0)
    {
      var j := 0;
      while j < n
        invariant 0 <= j <= n
        invariant Filled(s.regCompGraph, target, i, j)
      {
        WriteBoth(s.regCompGraph, target, i, j);
        if RegCompatible(s.registers, i, j) {
          s.regCompGraph := Put(s.regCompGraph, i, j, 1);
          s.regCompGraph := Put(s.regCompGraph, j, i, 1);
        } else {
          s.regCompGraph := Put(s.regCompGraph, i, j, 0);
          s.regCompGraph := Put(s.regCompGraph, j, i, 0);
        }
        j := j + 1;
      }
      NextRow(s.regCompGraph, target, i);
      i := i + 1;
    }
    AllFilled(s.regCompGraph, target);
  }

  /** Members of one register group have pairwise non-overlapping live
      intervals (touching ends are allowed), and a group of such registers
      is a clique. */
  predicate SharesStorage(regs: seq<Reg>, group: seq<nat>) {
    && (forall a | 0 <= a < |group| :: group[a] < |regs|)
    && forall a, b | 0 <= a < |group| && 0 <= b < |group| && a != b && group[a] != group[b] ::
         regs[group[a]].last <= regs[group[b]].first || regs[group[a]].first >= regs[group[b]].last
  }

  lemma CliqueIffSharesStorage(regs: seq<Reg>, group: seq<nat>)
    requires InRange(RegCompatGraph(regs), group)
    ensures IsClique(RegCompatGraph(regs), group) <==> SharesStorage(regs, group)
  {
    var g := RegCompatGraph(regs);
    if IsClique(g, group) {
      forall a, b | 0 <= a < |group| && 0 <= b < |group| && a != b && group[a] != group[b]
        ensures regs[group[a]].last <= regs[group[b]].first || regs[group[a]].first >= regs[group[b]].last
      {
        assert g[group[a]][group[b]] == 1;
      }
    }
    if SharesStorage(regs, group) {
      forall a, b | 0 <= a < |group| && 0 <= b < |group| && a != b ensures g[group[a]][group[b]] == 1 {
        assert RegCompatible(regs, group[a], group[b]);
      }
    }
  }

  /** Record the groups, one list of register indexes per clique. */
  method StoreRegGroups(s: Session, cliques: seq<seq<nat>>)
    requires s.regResources == []
    modifies s`regResources
    ensures s.regResources == cliques
  {
    var i := 0;
    while i < |cliques|
      invariant 0 <= i <= |cliques| && s.regResources == cliques[..i]
    {
      s.regResources := s.regResources + [[]];
      var j := 0;
      while j < |cliques[i]|
        invariant 0 <= j <= |cliques[i]| && |s.regResources| == i + 1
        invariant s.regResources[..i] == cliques[..i] && s.regResources[i] == cliques[i][..j]
      {
        s.regResources := s.regResources[i := s.regResources[i] + [cliques[i][j]]];
        assert cliques[i][..j + 1] == cliques[i][..j] + [cliques[i][j]];
        j := j + 1;
      }
      assert cliques[i][..j] == cliques[i];
      assert cliques[..i + 1] == cliques[..i] + [cliques[i]];
      assert s.regResources == s.regResources[..i] + [s.regResources[i]];
      i := i + 1;
    }
    assert cliques[..i] == cliques;
  }

  /** allocateRegisters: append the input and output registers after the
      declared ones, refresh every interval, build the compatibility
      matrix and partition it. Every register lands in exactly one group,
      and the registers of a group never hold live values at once. */
  method AllocateRegisters(s: Session)
    requires |s.registers| + |s.inputs| + |s.outputs| <= MaxCliques && s.regResources == []
    modifies s`registers, s`regCompGraph, s`regResources
    ensures |s.registers| == |old(s.registers)| + |s.inputs| + |s.outputs|
    ensures forall k | 0 <= k < |s.registers| ::
      s.registers[k] == Refresh(s.operations,
        (old(s.registers) + InputRegs(s.operations, s.inputs) + OutputRegs(s.operations, s.outputs))[k])
    ensures s.regCompGraph == RegCompatGraph(s.registers)
    ensures IsPartition(|s.registers|, s.regResources)
    ensures forall a | 0 <= a < |s.regResources| :: |s.regResources[a]| > 0 && SharesStorage(s.registers, s.regResources[a])
    ensures BuiltByRules(s.regCompGraph, s.regResources)
  {
    AppendInputRegisters(s);
    AppendOutputRegisters(s);
    RefreshIntervals(s);
    BuildRegCompGraph(s);
    RegCompatGraphWellFormed(s.registers);
    var result := CliquePartition.CliquePartition(s.regCompGraph);
    var cliques := result.value;
    StoreRegGroups(s, cliques);
    forall a | 0 <= a < |cliques| ensures SharesStorage(s.registers, cliques[a]) {
      CliqueIffSharesStorage(s.registers, cliques[a]);
    }
  }
}
