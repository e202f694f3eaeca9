/** The records of the synthesis flow, the state its stages share, and the
    ASAP scheduler that gives every operation its control step. */
module Scheduler {
  import opened CliquePartition

  /** A two-operand operation `output := operand1 <kind> operand2`; a
      timestep of 0 means "not scheduled yet". */
  datatype Operation = Operation(kind: string, operand1: string, operand2: string, output: string, timestep: int)

  /** A storage element and the first and last control steps it is used in. */
  datatype Reg = Reg(name: string, first: int, last: int)

  /** A functional unit of type `kind`, shared by the operations listed in
      `clique`. */
  datatype Resource = Resource(kind: string, clique: seq<nat>)

  /** A multiplexer in front of register group or functional unit number
      `resourceIndex`; `resourceBoundTo` is "REG" or the unit's type. */
  datatype Mux = Mux(numInputs: int, resourceBoundTo: string, resourceIndex: int)

  /** The state every stage reads and extends: the declared ports, the
      operation list, the registers, the compatibility graphs and the
      allocated resources. */
  class Session {
    var inputs: seq<string>
    var outputs: seq<string>
    var operations: seq<Operation>
    var registers: seq<Reg>
    var opResources: seq<Resource>
    var regResources: seq<seq<nat>>
    var muxResources: seq<Mux>
    var inputBits: int
    var outputBits: int
    var registerBits: int
    var operationBits: int
    var regCompGraph: Matrix
    var funcCompGraph: Matrix

    /** Every list starts empty and every width at 0. */
    constructor ()
      ensures inputs == [] && outputs == [] && operations == [] && registers == []
      ensures opResources == [] && regResources == [] && muxResources == []
      ensures inputBits == 0 && outputBits == 0 && registerBits == 0 && operationBits == 0
      ensures regCompGraph == [] && funcCompGraph == []
    {
      inputs, outputs, operations, registers := [], [], [], [];
      opResources, regResources, muxResources := [], [], [];
      inputBits, outputBits, registerBits, operationBits := 0, 0, 0, 0;
      regCompGraph, funcCompGraph := [], [];
    }
  }

  // ---------------------------------------------------------------------
  // Specification of the schedule

  /** Name x can be read by the end of control step t: it is a declared
      input (ready before step 1), or some operation scheduled at a step in
      1..t produces it. Nothing is available before step 0. */
  predicate Avail(inputs: seq<string>, ops: seq<Operation>, x: string, t: int) {
    t >= 0 && (x in inputs || exists j | 0 <= j < |ops| :: ops[j].output == x && 1 <= ops[j].timestep <= t)
  }

  /** Operation k runs at the first step at which both of its operands are
      available from earlier steps: both are ready by step t-1 and they were
      not both ready by step t-2. */
  predicate IsAsapStep(inputs: seq<string>, ops: seq<Operation>, k: nat)
    requires k < |ops|
  {
    var t := ops[k].timestep;
    && t >= 1
    && Avail(inputs, ops, ops[k].operand1, t - 1) && Avail(inputs, ops, ops[k].operand2, t - 1)
    && !(Avail(inputs, ops, ops[k].operand1, t - 2) && Avail(inputs, ops, ops[k].operand2, t - 2))
  }

  /** b is a with some timesteps replaced: same length, kind, operands and
      output at every position. */
  predicate SameButTimesteps(a: seq<Operation>, b: seq<Operation>) {
    |a| == |b| && forall k | 0 <= k < |a| :: b[k] == a[k].(timestep := b[k].timestep)
  }

  /** Number of operations still unscheduled. */
  function CountUnscheduled(ops: seq<Operation>): (r: nat)
    ensures r <= |ops|
  {
    if |ops| == 0 then 0
    else CountUnscheduled(ops[..|ops| - 1]) + (if ops[|ops| - 1].timestep == 0 then 1 else 0)
  }

  /** The count is zero exactly when every operation has a step, and it
      drops by one when an unscheduled operation gets a step. */
  lemma {:induction false} CountUnscheduledZero(ops: seq<Operation>)
    ensures CountUnscheduled(ops) == 0 <==> forall k | 0 <= k < |ops| :: ops[k].timestep != 0
  {
    if |ops| > 0 {
      var init := ops[..|ops| - 1];
      CountUnscheduledZero(init);
      if CountUnscheduled(ops) == 0 {
        forall k | 0 <= k < |ops| ensures ops[k].timestep != 0 {
          if k < |ops| - 1 {
            assert ops[k] == init[k];
          }
        }
      }
      if forall k | 0 <= k < |ops| :: ops[k].timestep != 0 {
        forall k | 0 <= k < |init| ensures init[k].timestep != 0 {
          assert init[k] == ops[k];
        }
      }
    }
  }

  lemma {:induction false} CountUnscheduledStep(ops: seq<Operation>, k: nat, t: int)
    requires k < |ops| && ops[k].timestep == 0 && t != 0
    ensures CountUnscheduled(ops[k := ops[k].(timestep := t)]) == CountUnscheduled(ops) - 1
  {
    var next := ops[k := ops[k].(timestep := t)];
    var n := |ops|;
    if k == n - 1 {
      assert next[..n - 1] == ops[..n - 1];
    } else {
      assert next[..n - 1] == ops[..n - 1][k := ops[k].(timestep := t)];
      CountUnscheduledStep(ops[..n - 1], k, t);
    }
  }

  /** Giving steps above t to unscheduled operations does not change what
      is available by step t. */
  lemma AvailFrame(inputs: seq<string>, a: seq<Operation>, b: seq<Operation>, x: string, t: int)
    requires SameButTimesteps(a, b)
    requires forall j | 0 <= j < |a| :: b[j].timestep == a[j].timestep || (a[j].timestep == 0 && b[j].timestep > t)
    ensures Avail(inputs, b, x, t) <==> Avail(inputs, a, x, t)
  {
    if Avail(inputs, b, x, t) && x !in inputs {
      var j :| 0 <= j < |b| && b[j].output == x && 1 <= b[j].timestep <= t;
      assert a[j].output == x;
    }
    if Avail(inputs, a, x, t) && x !in inputs {
      var j :| 0 <= j < |a| && a[j].output == x && 1 <= a[j].timestep <= t;
      assert b[j].output == x;
    }
  }

  /** The earliest step by which x is available: 0 for a declared input,
      otherwise the least step of an operation producing it (-1 when no
      scheduled operation produces it). */
  function ReadyTime(inputs: seq<string>, ops: seq<Operation>, x: string): (r: int)
    ensures r >= -1
  {
    if x in inputs then 0 else EarliestProducer(ops, x)
  }

  /** The least timestep >= 1 among the operations producing x, or -1. */
  function EarliestProducer(ops: seq<Operation>, x: string): (r: int)
    ensures r == -1 || r >= 1
  {
    if |ops| == 0 then -1
    else
      var rest := EarliestProducer(ops[..|ops| - 1], x);
      var last := ops[|ops| - 1];
      if last.output == x && last.timestep >= 1 && (rest == -1 || last.timestep < rest) then last.timestep
      else rest
  }

  lemma {:induction false} EarliestProducerAvail(ops: seq<Operation>, x: string, t: int)
    requires t >= 1
    ensures (exists j | 0 <= j < |ops| :: ops[j].output == x && 1 <= ops[j].timestep <= t)
            <==> EarliestProducer(ops, x) != -1 && EarliestProducer(ops, x) <= t
  {
    if |ops| > 0 {
      var init := ops[..|ops| - 1];
      EarliestProducerAvail(init, x, t);
      if exists j | 0 <= j < |ops| :: ops[j].output == x && 1 <= ops[j].timestep <= t {
        var j :| 0 <= j < |ops| && ops[j].output == x && 1 <= ops[j].timestep <= t;
        if j < |ops| - 1 {
          assert init[j] == ops[j];
        }
      }
      if exists j | 0 <= j < |init| :: init[j].output == x && 1 <= init[j].timestep <= t {
        var j :| 0 <= j < |init| && init[j].output == x && 1 <= init[j].timestep <= t;
        assert ops[j] == init[j];
      }
    }
  }

  /** A name is available by step t >= 0 exactly when its ready time is
      known and at most t. */
  lemma AvailReadyTime(inputs: seq<string>, ops: seq<Operation>, x: string, t: int)
    requires t >= 0
    ensures Avail(inputs, ops, x, t) <==> 0 <= ReadyTime(inputs, ops, x) <= t
  {
    if t >= 1 {
      EarliestProducerAvail(ops, x, t);
    } else {
      assert !exists j | 0 <= j < |ops| :: ops[j].output == x && 1 <= ops[j].timestep <= t;
    }
  }

  /** The ASAP rule in closed form: an operation scheduled by the ASAP rule
      runs one step after the later of its operands' ready times. */
  lemma AsapStepIsOnePastReady(inputs: seq<string>, ops: seq<Operation>, k: nat)
    requires k < |ops| && IsAsapStep(inputs, ops, k)
    ensures var a := ReadyTime(inputs, ops, ops[k].operand1);
            var b := ReadyTime(inputs, ops, ops[k].operand2);
            a >= 0 && b >= 0 && ops[k].timestep == 1 + (if a >= b then a else b)
  {
    var t := ops[k].timestep;
    AvailReadyTime(inputs, ops, ops[k].operand1, t - 1);
    AvailReadyTime(inputs, ops, ops[k].operand2, t - 1);
    if t >= 2 {
      AvailReadyTime(inputs, ops, ops[k].operand1, t - 2);
      AvailReadyTime(inputs, ops, ops[k].operand2, t - 2);
    }
  }

  /** No unscheduled operation can ever run: some operation is unscheduled
      and none of the unscheduled ones has both operands produced or
      declared. The scheduler would repeat empty rounds from here on. */
  predicate Stuck(inputs: seq<string>, ops: seq<Operation>) {
    && (exists k | 0 <= k < |ops| :: ops[k].timestep == 0)
    && forall k | 0 <= k < |ops| && ops[k].timestep == 0 ::
         !(Avail(inputs, ops, ops[k].operand1, MaxStep(ops)) && Avail(inputs, ops, ops[k].operand2, MaxStep(ops)))
  }

  /** The largest timestep in the list (0 for an empty list). */
  function MaxStep(ops: seq<Operation>): (r: int)
    ensures r >= 0 && forall k | 0 <= k < |ops| :: ops[k].timestep <= r
    ensures |ops| > 0 && ops[|ops| - 1].timestep >= 0 ==> r >= ops[|ops| - 1].timestep
  {
    if |ops| == 0 then 0
    else
      var rest := MaxStep(ops[..|ops| - 1]);
      if ops[|ops| - 1].timestep > rest then ops[|ops| - 1].timestep else rest
  }

  // ---------------------------------------------------------------------
  // createASAP

  /** The state at the top of a round: r rounds are done, every step lies in
      0..r, `scheduled` holds exactly what is available by step r, the
      counter counts the unscheduled operations, every scheduled operation
      obeys the ASAP rule and no unscheduled one was ready before step r. */
  ghost predicate RoundState(inputs: seq<string>, orig: seq<Operation>, ops: seq<Operation>,
                             scheduled: seq<string>, counter: int, r: int)
  {
    && r >= 0
    && SameButTimesteps(orig, ops)
    && (forall k | 0 <= k < |ops| :: 0 <= ops[k].timestep <= r)
    && (forall x :: x in scheduled <==> Avail(inputs, ops, x, r))
    && counter == CountUnscheduled(ops)
    && r <= |ops| - counter
    && (forall k | 0 <= k < |ops| && ops[k].timestep != 0 :: IsAsapStep(inputs, ops, k))
    && (forall k | 0 <= k < |ops| && ops[k].timestep == 0 ::
          !(Avail(inputs, ops, ops[k].operand1, r - 1) && Avail(inputs, ops, ops[k].operand2, r - 1)))
  }

  /** sel lists, ascending, exactly the unscheduled operations whose two
      operands are in `scheduled`. */
  predicate IsSelection(ops: seq<Operation>, scheduled: seq<string>, sel: seq<nat>, i: nat) {
    && (forall p, q | 0 <= p < q < |sel| :: sel[p] < sel[q])
    && (forall p | 0 <= p < |sel| :: sel[p] < i && sel[p] < |ops|)
    && (forall k | 0 <= k < i && k < |ops| ::
          k in sel <==> ops[k].timestep == 0 && ops[k].operand1 in scheduled && ops[k].operand2 in scheduled)
  }

  /** The operations after a round at step t that gives the selection step
      t: only the selected operations change, and only their timesteps. */
  predicate RoundUpdate(ops0: seq<Operation>, ops: seq<Operation>, sel: seq<nat>, t: int) {
    && SameButTimesteps(ops0, ops)
    && forall k | 0 <= k < |ops| :: ops[k].timestep == (if k in sel then t else ops0[k].timestep)
  }

  /** After the round, `scheduled` holds exactly what is available by step t. */
  lemma RoundStepAvail(inputs: seq<string>, ops0: seq<Operation>, scheduled0: seq<string>,
                       ops: seq<Operation>, scheduled: seq<string>, sel: seq<nat>, t: int)
    requires t >= 1 && forall x :: x in scheduled0 <==> Avail(inputs, ops0, x, t - 1)
    requires forall k | 0 <= k < |ops0| :: 0 <= ops0[k].timestep <= t - 1
    requires forall p | 0 <= p < |sel| :: sel[p] < |ops0| && ops0[sel[p]].timestep == 0
    requires RoundUpdate(ops0, ops, sel, t)
    requires forall x :: x in scheduled <==> x in scheduled0 || exists p | 0 <= p < |sel| :: ops0[sel[p]].output == x
    ensures forall x :: x in scheduled <==> Avail(inputs, ops, x, t)
  {
    forall x ensures x in scheduled <==> Avail(inputs, ops, x, t) {
      AvailFrame(inputs, ops0, ops, x, t - 1);
      if x in scheduled && x !in scheduled0 {
        var p :| 0 <= p < |sel| && ops0[sel[p]].output == x;
        assert ops[sel[p]].output == x && ops[sel[p]].timestep == t;
      }
      if Avail(inputs, ops, x, t) && x !in inputs {
        var j :| 0 <= j < |ops| && ops[j].output == x && 1 <= ops[j].timestep <= t;
        if j in sel {
          var p :| 0 <= p < |sel| && sel[p] == j;
          assert ops0[sel[p]].output == x;
        } else {
          assert ops0[j].output == x && 1 <= ops0[j].timestep <= t - 1;
          assert Avail(inputs, ops0, x, t - 1);
        }
      }
    }
  }

  /** After the round, every scheduled operation still obeys the ASAP rule,
      the newly scheduled ones included. */
  lemma RoundStepAsap(inputs: seq<string>, ops0: seq<Operation>, scheduled0: seq<string>,
                      ops: seq<Operation>, sel: seq<nat>, t: int)
    requires t >= 1 && forall x :: x in scheduled0 <==> Avail(inputs, ops0, x, t - 1)
    requires forall k | 0 <= k < |ops0| :: 0 <= ops0[k].timestep <= t - 1
    requires forall k | 0 <= k < |ops0| && ops0[k].timestep != 0 :: IsAsapStep(inputs, ops0, k)
    requires forall k | 0 <= k < |ops0| && ops0[k].timestep == 0 ::
      !(Avail(inputs, ops0, ops0[k].operand1, t - 2) && Avail(inputs, ops0, ops0[k].operand2, t - 2))
    requires IsSelection(ops0, scheduled0, sel, |ops0|)
    requires RoundUpdate(ops0, ops, sel, t)
    ensures forall k | 0 <= k < |ops| && ops[k].timestep != 0 :: IsAsapStep(inputs, ops, k)
  {
    forall k | 0 <= k < |ops| && ops[k].timestep != 0 ensures IsAsapStep(inputs, ops, k) {
      var tk := ops[k].timestep;
      assert ops[k].operand1 == ops0[k].operand1 && ops[k].operand2 == ops0[k].operand2;
      AvailFrame(inputs, ops0, ops, ops[k].operand1, tk - 1);
      AvailFrame(inputs, ops0, ops, ops[k].operand2, tk - 1);
      AvailFrame(inputs, ops0, ops, ops[k].operand1, tk - 2);
      AvailFrame(inputs, ops0, ops, ops[k].operand2, tk - 2);
      if k in sel {
        assert ops0[k].timestep == 0 && tk == t;
      } else {
        assert IsAsapStep(inputs, ops0, k);
      }
    }
  }

  /** After the round, no operation left unscheduled was ready by step t-1. */
  lemma RoundStepWaiting(inputs: seq<string>, ops0: seq<Operation>, scheduled0: seq<string>,
                         ops: seq<Operation>, sel: seq<nat>, t: int)
    requires t >= 1 && forall x :: x in scheduled0 <==> Avail(inputs, ops0, x, t - 1)
    requires forall k | 0 <= k < |ops0| :: 0 <= ops0[k].timestep <= t - 1
    requires IsSelection(ops0, scheduled0, sel, |ops0|)
    requires RoundUpdate(ops0, ops, sel, t)
    ensures forall k | 0 <= k < |ops| && ops[k].timestep == 0 ::
      !(Avail(inputs, ops, ops[k].operand1, t - 1) && Avail(inputs, ops, ops[k].operand2, t - 1))
  {
    forall k | 0 <= k < |ops| && ops[k].timestep == 0
      ensures !(Avail(inputs, ops, ops[k].operand1, t - 1) && Avail(inputs, ops, ops[k].operand2, t - 1))
    {
      assert k !in sel && ops0[k].timestep == 0;
      AvailFrame(inputs, ops0, ops, ops[k].operand1, t - 1);
      AvailFrame(inputs, ops0, ops, ops[k].operand2, t - 1);
    }
  }

  /** After a round at step t that schedules a non-empty selection, the
      round-state invariant holds for step t. */
  lemma RoundStep(inputs: seq<string>, orig: seq<Operation>, ops0: seq<Operation>, scheduled0: seq<string>,
                  counter0: int, ops: seq<Operation>, scheduled: seq<string>, counter: int,
                  sel: seq<nat>, t: int)
    requires RoundState(inputs, orig, ops0, scheduled0, counter0, t - 1)
    requires IsSelection(ops0, scheduled0, sel, |ops0|) && |sel| > 0
    requires RoundUpdate(ops0, ops, sel, t)
    requires forall x :: x in scheduled <==> x in scheduled0 || exists p | 0 <= p < |sel| :: ops0[sel[p]].output == x
    requires counter == CountUnscheduled(ops) && counter == counter0 - |sel|
    ensures RoundState(inputs, orig, ops, scheduled, counter, t)
  {
    assert SameButTimesteps(orig, ops) by {
      forall k | 0 <= k < |orig| ensures ops[k] == orig[k].(timestep := ops[k].timestep) {
        assert ops[k] == ops0[k].(timestep := ops[k].timestep);
      }
    }
    RoundStepAvail(inputs, ops0, scheduled0, ops, scheduled, sel, t);
    RoundStepAsap(inputs, ops0, scheduled0, ops, sel, t);
    RoundStepWaiting(inputs, ops0, scheduled0, ops, sel, t);
    SelectionUnscheduled(ops0, sel);
  }

  /** A selection lists distinct unscheduled operations, so it is no longer
      than their count. */
  lemma {:induction false} SelectionUnscheduled(ops: seq<Operation>, sel: seq<nat>)
    requires forall p, q | 0 <= p < q < |sel| :: sel[p] < sel[q]
    requires forall p | 0 <= p < |sel| :: sel[p] < |ops| && ops[sel[p]].timestep == 0
    ensures |sel| <= CountUnscheduled(ops)
  {
    if |sel| > 0 {
      var last := sel[|sel| - 1];
      assert last < |ops|;
      var init := ops[..|ops| - 1];
      if last == |ops| - 1 {
        var rest := sel[..|sel| - 1];
        assert forall p, q | 0 <= p < q < |rest| :: rest[p] < rest[q] by {
          forall p, q | 0 <= p < q < |rest| ensures rest[p] < rest[q] {
            assert rest[p] == sel[p] && rest[q] == sel[q];
          }
        }
        forall p | 0 <= p < |rest| ensures rest[p] < |init| && init[rest[p]].timestep == 0 {
          assert rest[p] == sel[p] < last;
          assert init[rest[p]] == ops[rest[p]];
        }
        SelectionUnscheduled(init, rest);
        assert ops[|ops| - 1].timestep == 0;
      } else {
        forall p | 0 <= p < |sel| ensures sel[p] < |init| && init[sel[p]].timestep == 0 {
          assert p == |sel| - 1 || sel[p] < last;
          assert init[sel[p]] == ops[sel[p]];
        }
        SelectionUnscheduled(init, sel);
      }
    }
  }

  /** The first inner loop of createASAP: the indexes, ascending, of the
      unscheduled operations whose two operands are both in `scheduled`. */
  method SelectReady(ops: seq<Operation>, scheduled: seq<string>) returns (toSchedule: seq<nat>)
    ensures IsSelection(ops, scheduled, toSchedule, |ops|)
  {
    toSchedule := [];
    var i := 0;
    while i < |ops|
      invariant 0 <= i <= |ops|
      invariant IsSelection(ops, scheduled, toSchedule, i)
    {
      if ops[i].timestep == 0 {
        if ops[i].operand1 in scheduled && ops[i].operand2 in scheduled {
          toSchedule := toSchedule + [i];
        }
      }
      i := i + 1;
    }
  }

  /** The second inner loop of createASAP: pop the selected indexes from the
      back, give each operation the round's timestep, append its output to
      `scheduled` and count it off. */
  method ScheduleSelected(s: Session, toSchedule: seq<nat>, timestep: int, scheduled0: seq<string>, counter0: int)
    returns (scheduled: seq<string>, operationsToSchedule: int)
    requires timestep >= 1 && counter0 == CountUnscheduled(s.operations)
    requires forall p, q | 0 <= p < q < |toSchedule| :: toSchedule[p] < toSchedule[q]
    requires forall p | 0 <= p < |toSchedule| :: toSchedule[p] < |s.operations| && s.operations[toSchedule[p]].timestep == 0
    modifies s`operations
    ensures RoundUpdate(old(s.operations), s.operations, toSchedule, timestep)
    ensures forall x :: x in scheduled <==>
      x in scheduled0 || exists p | 0 <= p < |toSchedule| :: old(s.operations)[toSchedule[p]].output == x
    ensures operationsToSchedule == CountUnscheduled(s.operations) && operationsToSchedule == counter0 - |toSchedule|
  {
    ghost var ops0 := s.operations;
    // the stack holds toSchedule[..top]; popping takes its last entry
    var top := |toSchedule|;
    scheduled, operationsToSchedule := scheduled0, counter0;
    while top != 0
      invariant 0 <= top <= |toSchedule|
      invariant s.operations == Stamp(ops0, toSchedule[top..], timestep)
      invariant scheduled == scheduled0 + PushedOutputs(ops0, toSchedule[top..])
      invariant operationsToSchedule == counter0 - (|toSchedule| - top)
    {
      var operationIndex := toSchedule[top - 1];
      top := top - 1;
      assert toSchedule[top..][1..] == toSchedule[top + 1..];
      StampOutput(ops0, toSchedule[top + 1..], timestep, operationIndex);
      s.operations := s.operations[operationIndex := s.operations[operationIndex].(timestep := timestep)];
      scheduled := scheduled + [s.operations[operationIndex].output];
      operationsToSchedule := operationsToSchedule - 1;
    }
    assert toSchedule[0..] == toSchedule;
    StampFacts(ops0, toSchedule, timestep);
    PushedOutputsMembers(ops0, toSchedule);
  }

  /** The operations after giving step t to each listed operation, one by
      one from the back of idx. */
  function Stamp(ops: seq<Operation>, idx: seq<nat>, t: int): (r: seq<Operation>)
    requires forall p | 0 <= p < |idx| :: idx[p] < |ops|
  {
    if |idx| == 0 then ops
    else
      var rest := Stamp(ops, idx[1..], t);
      if idx[0] < |rest| then rest[idx[0] := rest[idx[0]].(timestep := t)] else rest
  }

  /** Stamping keeps the length and changes no output. */
  lemma {:induction false} StampOutput(ops: seq<Operation>, idx: seq<nat>, t: int, k: nat)
    requires forall p | 0 <= p < |idx| :: idx[p] < |ops|
    requires k < |ops|
    ensures |Stamp(ops, idx, t)| == |ops| && Stamp(ops, idx, t)[k].output == ops[k].output
  {
    if |idx| > 0 {
      StampOutput(ops, idx[1..], t, k);
      StampOutput(ops, idx[1..], t, idx[0]);
    }
  }

  /** Stamping distinct unscheduled operations gives exactly them step t,
      changes nothing else, and lowers the count of unscheduled operations
      by their number. */
  lemma {:induction false} StampFacts(ops: seq<Operation>, idx: seq<nat>, t: int)
    requires t != 0
    requires forall p, q | 0 <= p < q < |idx| :: idx[p] < idx[q]
    requires forall p | 0 <= p < |idx| :: idx[p] < |ops| && ops[idx[p]].timestep == 0
    ensures RoundUpdate(ops, Stamp(ops, idx, t), idx, t)
    ensures CountUnscheduled(Stamp(ops, idx, t)) == CountUnscheduled(ops) - |idx|
  {
    if |idx| > 0 {
      var tail := idx[1..];
      StampFacts(ops, tail, t);
      var rest := Stamp(ops, tail, t);
      var k := idx[0];
      assert k !in tail by {
        forall p | 0 <= p < |tail| ensures tail[p] != k {
          assert tail[p] == idx[p + 1];
        }
      }
      assert rest[k].timestep == 0;
      CountUnscheduledStep(rest, k, t);
      var r := Stamp(ops, idx, t);
      forall j | 0 <= j < |r| ensures r[j].timestep == (if j in idx then t else ops[j].timestep) {
        if j != k {
          assert j in idx <==> j in tail;
        }
      }
    }
  }

  /** The outputs pushed while popping idx from its back: the last entry's
      output first. */
  function PushedOutputs(ops: seq<Operation>, idx: seq<nat>): (r: seq<string>)
    requires forall p | 0 <= p < |idx| :: idx[p] < |ops|
  {
    if |idx| == 0 then [] else PushedOutputs(ops, idx[1..]) + [ops[idx[0]].output]
  }

  lemma {:induction false} PushedOutputsMembers(ops: seq<Operation>, idx: seq<nat>)
    requires forall p | 0 <= p < |idx| :: idx[p] < |ops|
    ensures forall x :: x in PushedOutputs(ops, idx) <==> exists p | 0 <= p < |idx| :: ops[idx[p]].output == x
  {
    if |idx| > 0 {
      PushedOutputsMembers(ops, idx[1..]);
      forall x | exists p | 0 <= p < |idx| :: ops[idx[p]].output == x
        ensures x in PushedOutputs(ops, idx)
      {
        var p :| 0 <= p < |idx| && ops[idx[p]].output == x;
        if p > 0 {
          assert idx[1..][p - 1] == idx[p];
        }
      }
      forall x | x in PushedOutputs(ops, idx[1..])
        ensures exists p | 0 <= p < |idx| :: ops[idx[p]].output == x
      {
        var p :| 0 <= p < |idx| - 1 && ops[idx[1..][p]].output == x;
        assert idx[p + 1] == idx[1..][p];
      }
    }
  }

  /** createASAP: round after round, select every unscheduled operation
      whose two operands are already available, then give all of them the
      round's number and only afterwards make their outputs available.
      Without progress the source repeats empty rounds forever; here it
      returns false in the state it would stay in. */
  method CreateASAP(s: Session) returns (ok: bool)
    requires forall k | 0 <= k < |s.operations| :: s.operations[k].timestep == 0
    modifies s`operations
    ensures SameButTimesteps(old(s.operations), s.operations)
    ensures forall k | 0 <= k < |s.operations| && s.operations[k].timestep != 0 ::
      s.operations[k].timestep <= |s.operations| && IsAsapStep(s.inputs, s.operations, k)
    ensures ok <==> forall k | 0 <= k < |s.operations| :: s.operations[k].timestep != 0
    ensures !ok ==> Stuck(s.inputs, s.operations)
  {
    ghost var orig := s.operations;
    var operationsToSchedule := |s.operations|;
    var timestep := 0;
    var scheduled := s.inputs;
    var toSchedule: seq<nat> := [];
    InitialRound(s.inputs, s.operations);

    while operationsToSchedule != 0
      invariant RoundState(s.inputs, orig, s.operations, scheduled, operationsToSchedule, timestep)
      invariant toSchedule == []
      decreases operationsToSchedule
    {
      timestep := timestep + 1;

      // find the operations of the current timestep
      toSchedule := SelectReady(s.operations, scheduled);

      if toSchedule == [] {
        // nothing can run: the source repeats this round forever
        StuckState(s.inputs, orig, s.operations, scheduled, operationsToSchedule, timestep - 1);
        RoundFacts(s.inputs, orig, s.operations, scheduled, operationsToSchedule, timestep - 1);
        return false;
      }

      // give every selected operation this timestep, then publish its output
      ghost var ops0, scheduled0, counter0 := s.operations, scheduled, operationsToSchedule;
      SelectionUnscheduled(s.operations, toSchedule);
      scheduled, operationsToSchedule := ScheduleSelected(s, toSchedule, timestep, scheduled, operationsToSchedule);
      RoundStep(s.inputs, orig, ops0, scheduled0, counter0, s.operations, scheduled, operationsToSchedule,
                toSchedule, timestep);
      toSchedule := [];
    }
    RoundFacts(s.inputs, orig, s.operations, scheduled, operationsToSchedule, timestep);
    return true;
  }

  /** Before the first round every operation is unscheduled and only the
      inputs are available. */
  lemma InitialRound(inputs: seq<string>, ops: seq<Operation>)
    requires forall k | 0 <= k < |ops| :: ops[k].timestep == 0
    ensures RoundState(inputs, ops, ops, inputs, |ops|, 0)
  {
    CountAllUnscheduled(ops);
    forall x ensures x in inputs <==> Avail(inputs, ops, x, 0) {
    }
    assert SameButTimesteps(ops, ops) by {
      forall k | 0 <= k < |ops| ensures ops[k] == ops[k].(timestep := ops[k].timestep) {
      }
    }
  }

  /** What a round state says about the operations between rounds. */
  lemma RoundFacts(inputs: seq<string>, orig: seq<Operation>, ops: seq<Operation>, scheduled: seq<string>,
                   counter: int, r: int)
    requires RoundState(inputs, orig, ops, scheduled, counter, r)
    ensures SameButTimesteps(orig, ops)
    ensures forall k | 0 <= k < |ops| && ops[k].timestep != 0 :: ops[k].timestep <= |ops| && IsAsapStep(inputs, ops, k)
    ensures counter == 0 <==> forall k | 0 <= k < |ops| :: ops[k].timestep != 0
  {
    CountUnscheduledZero(ops);
  }

  lemma {:induction false} CountAllUnscheduled(ops: seq<Operation>)
    requires forall k | 0 <= k < |ops| :: ops[k].timestep == 0
    ensures CountUnscheduled(ops) == |ops|
  {
    if |ops| > 0 {
      CountAllUnscheduled(ops[..|ops| - 1]);
    }
  }

  /** A round that selects nothing leaves the scheduler stuck. */
  lemma StuckState(inputs: seq<string>, orig: seq<Operation>, ops: seq<Operation>, scheduled: seq<string>,
                   counter: int, r: int)
    requires RoundState(inputs, orig, ops, scheduled, counter, r) && counter != 0
    requires IsSelection(ops, scheduled, [], |ops|)
    ensures Stuck(inputs, ops)
  {
    CountUnscheduledZero(ops);
    forall k | 0 <= k < |ops| && ops[k].timestep == 0
      ensures !(Avail(inputs, ops, ops[k].operand1, MaxStep(ops)) && Avail(inputs, ops, ops[k].operand2, MaxStep(ops)))
    {
      AvailUpToMax(inputs, ops, ops[k].operand1, r);
      AvailUpToMax(inputs, ops, ops[k].operand2, r);
    }
  }

  /** Once every step is at most r, availability by r and by the largest
      step agree. */
  lemma AvailUpToMax(inputs: seq<string>, ops: seq<Operation>, x: string, r: int)
    requires r >= 0 && forall k | 0 <= k < |ops| :: ops[k].timestep <= r
    ensures Avail(inputs, ops, x, MaxStep(ops)) <==> Avail(inputs, ops, x, r)
  {
    if Avail(inputs, ops, x, r) && x !in inputs {
      var j :| 0 <= j < |ops| && ops[j].output == x && 1 <= ops[j].timestep <= r;
      assert ops[j].timestep <= MaxStep(ops);
    }
  }
}
