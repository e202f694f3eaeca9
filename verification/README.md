# Allocation engine of a small high-level-synthesis tool, in Dafny

This project models the core of a small high-level-synthesis (HLS) tool and proves properties of that model. The tool reads a design: declared inputs, outputs and registers, and a list of two-operand operations. It then schedules the operations ASAP (as soon as possible), binds them to shared functional units, groups registers into shared storage and places multiplexers in front of every shared resource. Finally it lays out the control bus of the generated datapath.

The source keeps the design in global lists: operations, registers, resources and muxes. Each stage is a procedure that appends to those lists or overwrites them. The model follows that shape:

- **The session.** A `Session` class holds the global lists as `seq` fields and the two compatibility matrices as `seq<seq<int>>` fields. Each stage is a method over the session with a `modifies` clause naming exactly the fields it changes. Each stage is proved against specification functions: `FuCompatGraph`, `RegCompatGraph`, `Refresh`, `MuxesFor` and `ParseFile`.
- **The clique partitioner.** The partitioner that both binders use keeps the nested index loops of the source. Its helpers are split along the source's own loops. Its result is a value, so each call starts from a fresh clique table.
- **The design file.** The file is modelled as a sequence of whitespace-separated tokens. `ParseFile` is the reader as a function, and `ReadInputFile` is its loops over the session. The two are proved equal. The reader is also proved to read back what the writer `Tokens` produces.
- **The control bus.** The select-width and ctrl-bit arithmetic of the VHDL writer is modelled, and proved to tile the bus.

The modules follow the source files:

| module | file | models |
|---|---|---|
| `Common` | `Common.dfy` | `Option`; flattening of groups; duplicate-free sequences |
| `CliquePartition` | `CliquePartition.dfy` | `clique_partition.h` |
| `Scheduler` | `Scheduler.dfy` | the records and global lists of `scheduler.hpp`; `createASAP` |
| `AllocateBinding` | `AllocateBinding.dfy` | `allocateFunctionalUnits` |
| `AllocateReg` | `AllocateReg.dfy` | `allocateRegisters` |
| `Multiplexor` | `Multiplexor.dfy` | `allocateMultiplexers` |
| `Dcs` | `Dcs.dfy` | `readInputFile` of `dcs.cpp` |
| `ControlBus` | `ControlBus.dfy` | the ctrl-bus arithmetic and register write enables of `writeVHDL` in `dcs.cpp` |
| `Flow` | `Flow.dfy` | `main` of `dcs.cpp`: the stages in order |

The model follows the code wherever the code departs from its own comments, and where its behaviour is easy to misread:

- **Seed choice.** The pseudo-code comment at clique_partition.h:69-72 breaks degree ties by the highest neighbour weight, then at random. The code computes the "neighbour weight" as the node's own degree again and compares it with `>=`. Among nodes of maximum degree, the highest index therefore wins (`IsSeed`).
- **Y1 scoring.** The pseudo-code comment at clique_partition.h:82-83 scores y by |I_y ∩ Y|. The code walks the row of `sets_I_y` at the *position* of y in Y, not at y itself, for as many entries as I_y of y has. `Card` models that.
- **Register intervals.** Registers go only to declared registers, inputs and outputs; an intermediate value gets none. The second pass of `allocateRegisters` can leave `first > last`, which `WrittenNeverRead` proves. That pass also drops an output's `last = max step` when the design reads the output.
- **Capacity.** The clique table has `MAXCLIQUES` (200) slots. The model keeps 200 (`MaxCliques`) as a precondition of the partitioner. `Synthesize` returns false for a larger design.
- **Failures.** A malformed matrix makes the code exit the process; the model returns `None`. An unschedulable design or a truncated file makes the code loop forever; the model returns `false`, with the stuck state described (`Stuck`).

## Model

| member | source | states |
|---|---|---|
| CliquePartition.InputSanityCheck | clique_partition.h:119-151 | accepts exactly the matrices whose every entry is 0 or 1 and that are symmetric; the diagonal may hold 0 or 1 |
| CliquePartition.GetDegreeOfANode | clique_partition.h:214-229 | the result is the degree of x: row x summed over the remaining nodes other than x |
| CliquePartition.DegreeCountsNeighbours | clique_partition.h:214-229 | on a 0/1 matrix the degree is the number of compatible remaining nodes other than x, so it lies in 0..n-1 |
| CliquePartition.BucketByDegree | clique_partition.h:253-283 | the bucket of the largest degree is non-empty, all its nodes have that degree, and its last entry is the seed |
| CliquePartition.SeedFromBuckets | clique_partition.h:294-325 | once every node is bucketed, the last entry of the largest-degree bucket is the seed |
| CliquePartition.LastOfBucketIsSeed | clique_partition.h:294-325 | the last entry of the ascending bucket of maximum degree is the highest-indexed remaining node of maximum degree |
| CliquePartition.SelectNewNode | clique_partition.h:231-331 | returns a remaining node of maximum degree, the highest-indexed one on ties |
| CliquePartition.FormSetY | clique_partition.h:333-376 | Y is the ascending list `CommonNeighbours` of the remaining nodes compatible with every member of the growing clique |
| CliquePartition.CommonNeighboursUpToMembers | clique_partition.h:333-376 | a node is in the filtered list exactly when it is below the bound, remaining and compatible with every member |
| CliquePartition.IncompatibleMembers | clique_partition.h:564-582 | I_y is ascending and holds exactly the remaining nodes whose entry with y is not 1 |
| CliquePartition.FormIncompatibleSets | clique_partition.h:552-601 | row y of the table is I_y for every y in Y, other rows are empty, and the recorded size of y is abs(I_y) |
| CliquePartition.ComputeCards | clique_partition.h:402-435 | the score of each position of Y is the count the source computes, which reads the table row at the position |
| CliquePartition.FormSetY1 | clique_partition.h:392-472 | Y1 is non-empty, ascending, and holds exactly the members of Y at positions of least score |
| CliquePartition.FormSetY2 | clique_partition.h:474-526 | Y2 is non-empty, ascending, and holds exactly the members of Y1 whose I_y is largest |
| CliquePartition.MergeChoiceFromY2 | clique_partition.h:603-616 | the first member of Y2 sits at a position of Y that satisfies the merge rule |
| CliquePartition.PickANodeToMerge | clique_partition.h:528-617 | the merged node is in Y: least score, then largest I_y, then earliest position |
| CliquePartition.OutputSanityCheck | clique_partition.h:153-197 | passes exactly when every stored clique is non-empty and its members at different positions are compatible both ways |
| CliquePartition.InitialState | clique_partition.h:715-723 | all nodes in N, nothing stored, an empty growing clique: the loop state holds |
| CliquePartition.CliqueSnoc | clique_partition.h:348-371 | a node compatible with every member extends a clique |
| CliquePartition.JoinStep | clique_partition.h:737-746 | moving a compatible node (or the seed) from N into the growing clique keeps the loop state |
| CliquePartition.StoreStep | clique_partition.h:757-795 | storing the clique when Y is empty keeps the loop state and lowers size_N by the clique's size |
| CliquePartition.NodesAreUnstored | clique_partition.h:715-806 | in the loop state, N is exactly the nodes neither stored nor in the growing clique |
| CliquePartition.GrownByRulesAt | clique_partition.h:737-805 | in a clique grown by the rules, the first member is the seed of the nodes then unstored and each later one the merge choice from Y at that point |
| CliquePartition.BuiltByRulesAt | clique_partition.h:725-806 | every stored clique was grown by the rules from the nodes left by the earlier ones and closed with an empty Y |
| CliquePartition.RulesAfterSeed | clique_partition.h:737-746 | a clique holding only the seed is grown by the rules |
| CliquePartition.RulesAfterMerge | clique_partition.h:796-805 | appending the merge choice from Y keeps the clique grown by the rules |
| CliquePartition.RulesAfterStore | clique_partition.h:757-795 | storing a rule-grown clique once Y is empty keeps the stored list built by the rules |
| CliquePartition.StoreOrMerge | clique_partition.h:748-805 | when Y is empty the clique is stored, the growing clique emptied and size_N lowered by its size; otherwise the merge choice from Y joins the clique and leaves N; both keep the loop state and the rules, and lower the remaining work |
| CliquePartition.FinalState | clique_partition.h:725-806 | when size_N reaches 0, the stored cliques partition 0..n-1 and are non-empty and pairwise compatible |
| CliquePartition.FormCliques | clique_partition.h:715-806 | the main loop stores a partition of all nodes into non-empty pairwise-compatible cliques, each seeded, grown and closed by the rules, and one clique when all distinct nodes are compatible |
| CliquePartition.CliquePartition | clique_partition.h:660-813 | None exactly for a non-0/1 or asymmetric matrix; otherwise every node in exactly one non-empty pairwise-compatible clique, the cliques built by the seed, merge and closing rules |
| CliquePartition.StoredCliquesMaximal | clique_partition.h:748-795 | no node of a later clique is compatible with every member of an earlier one, so no stored clique could have grown further |
| CliquePartition.SeedUnique | clique_partition.h:294-325 | the seed rule admits one node |
| CliquePartition.MergeChoiceUnique | clique_partition.h:603-616 | the merge rule admits one position of Y |
| CliquePartition.GrownUnique | clique_partition.h:737-805 | two cliques grown by the rules from the same stored list agree on their common length |
| CliquePartition.ClosedIsLongest | clique_partition.h:748-795 | a clique closed by the rules is at least as long as any grown from the same stored list |
| CliquePartition.ClosedUnique | clique_partition.h:737-805 | the rules close one clique from a given stored list |
| CliquePartition.BuiltUnique | clique_partition.h:725-806 | two stored lists built by the rules agree on their common length |
| CliquePartition.NextSeedUnstored | clique_partition.h:725-746 | a clique the rules add after a list starts at a node that list has not stored |
| CliquePartition.NoCliqueAfterPartition | clique_partition.h:725-806 | once the stored list covers every node, the rules add no further clique |
| CliquePartition.RulesDetermineCliques | clique_partition.h:660-813 | two partitions built by the rules are equal, so the rules fix the result, order of cliques and of members included |
| CliquePartition.ExactlyOneClique | clique_partition.h:772-786 | in the stored partition every node lies in exactly one clique |
| Scheduler.Session.constructor | scheduler.hpp:34-41 | every global list starts empty and every width at 0 |
| Scheduler.CountUnscheduledZero | scheduler.hpp:45-49 | the count of unscheduled operations is 0 exactly when every operation has a step |
| Scheduler.CountUnscheduledStep | scheduler.hpp:63-65 | giving an unscheduled operation a step lowers the count by one |
| Scheduler.AvailFrame | scheduler.hpp:53-63 | giving later steps to unscheduled operations does not change what is available by step t |
| Scheduler.AvailReadyTime | scheduler.hpp:46-64 | a name is available by step t exactly when its ready time (0 for an input, else the earliest producing step) is at most t |
| Scheduler.AsapStepIsOnePastReady | scheduler.hpp:53-64 | an operation at an ASAP step runs at 1 + the later of its operands' ready times |
| Scheduler.SelectReady | scheduler.hpp:53-57 | lists, ascending, exactly the unscheduled operations whose two operands are both available |
| Scheduler.SelectionUnscheduled | scheduler.hpp:53-57 | a selection is no longer than the count of unscheduled operations |
| Scheduler.StampFacts | scheduler.hpp:59-65 | stamping the selection gives exactly the selected operations the round's step, changes nothing else and lowers the count by its size |
| Scheduler.PushedOutputsMembers | scheduler.hpp:59-64 | the names pushed while popping are exactly the outputs of the selected operations |
| Scheduler.ScheduleSelected | scheduler.hpp:59-66 | only the selected timesteps change, their outputs are added afterwards, and the counter drops by the selection's size |
| Scheduler.RoundStepAvail | scheduler.hpp:53-64 | after a round, the available names are exactly those available by its step |
| Scheduler.RoundStepAsap | scheduler.hpp:53-63 | after a round, every scheduled operation, including the new ones, obeys the ASAP rule |
| Scheduler.RoundStepWaiting | scheduler.hpp:53-57 | after a round, no operation left unscheduled was ready one step earlier |
| Scheduler.RoundStep | scheduler.hpp:49-66 | a round that selects something keeps the round invariant |
| Scheduler.InitialRound | scheduler.hpp:45-47 | before the first round the round invariant holds with only the inputs available |
| Scheduler.RoundFacts | scheduler.hpp:49-66 | between rounds only timesteps have changed, every assigned step is ASAP and at most abs(operations), and the counter is 0 exactly when all are scheduled |
| Scheduler.StuckState | scheduler.hpp:49-58 | a round that selects nothing while operations remain means no remaining operation can ever run |
| Scheduler.AvailUpToMax | scheduler.hpp:53-57 | once every step is at most r, availability by r equals availability by the largest step |
| Scheduler.CreateASAP | scheduler.hpp:43-68 | only timesteps change; every assigned step is in 1..abs(operations) and ASAP; success exactly when all are scheduled, otherwise stuck |
| AllocateBinding.WriteBoth | allocate_binding.hpp:16-26 | writing entry (i, j) and its mirror with the symmetric target's value extends the written region |
| AllocateBinding.AllFilled | allocate_binding.hpp:12-26 | once the double loop has visited every position, the matrix is the target |
| AllocateBinding.FuCompatGraphWellFormed | allocate_binding.hpp:16-26 | the operation compatibility matrix is 0/1 and symmetric, with a 1-diagonal |
| AllocateBinding.BuildFuncCompGraph | allocate_binding.hpp:6-26 | funcCompGraph becomes the matrix with 1 exactly for i == j or equal type at unequal steps |
| AllocateBinding.CliqueIffUnit | allocate_binding.hpp:16-38 | a duplicate-free clique is exactly a unit whose members share the first member's type and run at pairwise different steps |
| AllocateBinding.StoreUnits | allocate_binding.hpp:30-45 | one resource per clique, in clique order, typed by its first member and listing the members in stored order |
| AllocateBinding.AllocateFunctionalUnits | allocate_binding.hpp:4-46 | every operation is on exactly one unit; every unit is non-empty, single-typed and has no two operations at one step; the units are the cliques the partitioner's rules build |
| AllocateBinding.OneUnitPerOperation | allocate_binding.hpp:28-45 | every operation index lies in exactly one unit |
| AllocateBinding.SharedMeansCompatible | allocate_binding.hpp:16-28 | two different operations on one unit have the same type and different steps |
| AllocateReg.LastStepIsLast | allocate_reg.hpp:16-18 | an overwriting scan yields the step of the last-listed operation that touches the name, or the default when none does |
| AllocateReg.LastStepIdempotent | allocate_reg.hpp:39-45 | scanning again with the same rule changes nothing |
| AllocateReg.ReadOnlyIsRead | allocate_reg.hpp:43-45 | where nothing writes the name, the read-only scan equals the read scan |
| AllocateReg.RefreshIdempotent | allocate_reg.hpp:39-45 | the second pass is idempotent |
| AllocateReg.RefreshPortRegs | allocate_reg.hpp:10-45 | the second pass keeps an unwritten input's register and an unread output's register; an output read inside the design gets as last the step of its last read-only use instead of the largest step |
| AllocateReg.WrittenNeverRead | allocate_reg.hpp:39-45 | a declared register written but never read ends with first > last = 0 |
| AllocateReg.AppendInputRegisters | allocate_reg.hpp:10-19 | one register per input, in order: first 0, last the step of the last operation reading it (0 if none) |
| AllocateReg.AppendOutputRegisters | allocate_reg.hpp:21-35 | one register per output, in order: first the step of its last producer, last the largest step |
| AllocateReg.RefreshIntervals | allocate_reg.hpp:37-45 | every register is replaced by the second-pass result: last writer sets first, last reader that does not write sets last |
| AllocateReg.RegCompatGraphWellFormed | allocate_reg.hpp:52-62 | the register compatibility matrix is 0/1 and symmetric, with a 1-diagonal |
| AllocateReg.BuildRegCompGraph | allocate_reg.hpp:47-62 | regCompGraph becomes the matrix with 1 exactly for i == j, last_i <= first_j or first_i >= last_j |
| AllocateReg.CliqueIffSharesStorage | allocate_reg.hpp:52-64 | a group is a clique exactly when its registers' intervals pairwise do not overlap, touching ends allowed |
| AllocateReg.StoreRegGroups | allocate_reg.hpp:66-79 | the groups are the partitioner's cliques, in order |
| AllocateReg.AllocateRegisters | allocate_reg.hpp:4-80 | declared, then input, then output registers with refreshed intervals; every register in exactly one non-empty group of non-overlapping intervals; the groups are the cliques the partitioner's rules build |
| Multiplexor.MuxesForSound | multiplexor.hpp:7-23 | every mux points at a group of more than one member, has that member count as inputs and carries the group's binding |
| Multiplexor.MuxesForAscending | multiplexor.hpp:7-23 | the muxes follow group order, so no group gets two |
| Multiplexor.MuxesForComplete | multiplexor.hpp:7-23 | every group of more than one member has a mux |
| Multiplexor.MuxesForCountsShared | multiplexor.hpp:5-24 | the number of muxes equals the number of groups with more than one member |
| Multiplexor.AllocateMultiplexers | multiplexor.hpp:5-24 | appends the register-group muxes ("REG") and then the unit muxes (the unit's type); groups and units unchanged |
| Dcs.ReadPortsTokens | dcs.cpp:692-700 | a run of (name, width) pairs followed by its sentinel is read whole, stopping on the sentinel |
| Dcs.ReadRecordsTokens | dcs.cpp:728-744 | a run of six-token records followed by "end" is read whole |
| Dcs.ParseFileFrom | dcs.cpp:689-744 | the reader's result once each of its four loops is known |
| Dcs.PortSectionsRead | dcs.cpp:689-711 | the input and output sections of a written file are read whole |
| Dcs.RecordSectionsRead | dcs.cpp:713-744 | the register section and the records of a written file are read whole |
| Dcs.ParseLayout | dcs.cpp:673-745 | tokens laid out as a well-formed file are read as that file |
| Dcs.ParseTokens | dcs.cpp:673-745 | round trip: a well-formed file, written as tokens, is read back as itself |
| Dcs.ReadPortsAvoidSentinel | dcs.cpp:693-700 | no entry read is named like the sentinel, and reading stops with the sentinel |
| Dcs.ReadRecordsAvoidStop | dcs.cpp:728-744 | no record read is labelled "end", and the first record carries the label read before it |
| Dcs.ParsedIsWellFormed | dcs.cpp:673-745 | whatever the reader accepts is well formed, so writing it and reading again gives the same file |
| Dcs.ReadPortSection | dcs.cpp:692-700 | the loop succeeds exactly when the reader function does, with the same entries and stopping point |
| Dcs.ReadRecordSection | dcs.cpp:727-744 | one unscheduled operation per record; the first record's width sets operationBits |
| Dcs.ReadDeclarations | dcs.cpp:689-725 | inputs and outputs appended, registers created with first = last = 0, each width from the first entry |
| Dcs.ReadInputFile | dcs.cpp:673-745 | succeeds exactly when the token reader does, and leaves the session holding the file's contents |
| ControlBus.SelectWidth | dcs.cpp:129-136 | the select width of k inputs is the least s >= 1 with 2^s >= k |
| ControlBus.SelectWidthUnique | dcs.cpp:129-136 | no other width is the least s >= 1 with 2^s >= k |
| ControlBus.MuxSelectBits | dcs.cpp:311-318 | the do-while loop computes the select width |
| ControlBus.ControlBusTop | dcs.cpp:124-140 | the ctrl bus top is the number of register groups plus all select widths, minus one |
| ControlBus.MuxSelectSlices | dcs.cpp:304-398 | mux i's select slice starts after the register enables and the fields of earlier muxes |
| ControlBus.SlicesContiguous | dcs.cpp:396-398 | each field has its mux's width, the first starts after the enables, each next one right after the previous, and the last ends at the top |
| ControlBus.SumWidthsPrefix | dcs.cpp:396-398 | fields of earlier muxes end before later ones start |
| ControlBus.SlicesPartitionBus | dcs.cpp:304-398 | every ctrl bit above the enables lies in exactly one select field |
| ControlBus.RegisterEnables | dcs.cpp:214-231 | register group i's write enable is ctrl bit i; the enables are distinct and lie below every select field |
| ControlBus.BusBitUse | dcs.cpp:214-231 | every ctrl bit has one use: below the number of register groups it is that group's enable and in no select field, otherwise in exactly one select field |
| Flow.Allocate | dcs.cpp:74-80 | after binding, register allocation and mux allocation: both compatibility matrices, the registers (declared, input, output, refreshed), a rule-built unit partition, a rule-built register-group partition, the datapath muxes and the bus layout |
| Flow.Load | dcs.cpp:69-71 | a parsed file is held by the session; on success every operation has an ASAP step in 1..abs(operations); failure means the file did not parse or the schedule is stuck |
| Flow.Synthesize | dcs.cpp:67-92 | a parsed file's ports and operations are held by the session; failure means no parse, a stuck schedule or a design over capacity; on success the schedule is ASAP, units and register groups are rule-built partitions, and the muxes and ctrl-bus layout are as the writer emits them |

## Left out

- Console and file I/O are not modelled: the file-name prompts, the `exit(1)` when the input file cannot be opened, all `print*` functions and the `#ifdef DEBUG` dumps. The token sequence stands in for the input file.
- `writeVHDL`'s text generation is not modelled, apart from the ctrl-bus arithmetic and the register write enables, and neither are its name and index lookups, which can read uninitialised `regIndex`/`opIndex`.
- The commented-out copies of the stages in `dcs.cpp` are not modelled; the header versions are.
- `new`/`malloc`, leaked buffers and jagged `int**` matrices are not modelled: matrices are values. `make_a_local_copy` is the identity on a value matrix.
- The `MAXCLIQUES` capacity is a precondition of the partitioner rather than overflowing fixed arrays. `Flow.Synthesize` returns false when a design exceeds it.
- With n = 1, `select_new_node` reads `degrees[d][1]` out of bounds. The model picks the lone node.
- Integer widths are unbounded: 32-bit overflow of the counters and of `atoi` is not modelled. `Atoi` is an optional sign followed by the leading decimal digits.
- Scheduler.CreateASAP: requires every timestep to be 0, which is how readInputFile leaves them. With steps already set, the source's counter never reaches 0.
- AllocateBinding.AllocateFunctionalUnits, AllocateReg.AllocateRegisters: require the resource list to be empty, because the source writes `opResources[i]`/`regResources[i]` by clique index and is only meaningful on an empty list.
- Dcs.ReadInputFile: requires the register and operation lists to be empty, for the same reason (`registers[i]`, `operations[i]`). The section keywords are a parameter, and the flow passes the file's own words.
- Dcs.ReadDeclarations: sets each width from the first entry once its section has been read, rather than inside the loop. Only a truncated file, where the source never returns, can tell the two apart.
- A design without operations has no "op1" token, so the register loop never ends. Dcs.ParseFile returns None for it, as for every file the source cannot finish reading.
- Flow.Synthesize: states the ports and operations it read, and the schedule, partition, storage, mux and bus properties of the result. The registers' exact intervals and the bit widths are stated by Flow.Load, Flow.Allocate and AllocateReg.AllocateRegisters for their own stage.
