# Resource-constrained scheduling of a BLIF netlist, in Dafny

This project models the two sequential parts of the scheduler: the reader that
turns a BLIF (Berkeley Logic Interchange Format) netlist into a dependency
graph, and the greedy list scheduler that assigns the graph's AND, OR and NOT
operations to time steps under per-class unit limits.

- `netlist.dfy` (module `Netlist`) is the graph. Nodes live in a sequence, and
  the node with id i sits at index i. Predecessor and successor lists hold ids.
  A graph is acyclic when a ranking exists that strictly decreases along every
  edge. `Priority` is the number of nodes on the longest path from a node to a
  sink.
- `blif_text.dfy` (module `BlifText`) holds the text layer of the reader.
  It strips comments, joins backslash-continued lines into logical lines,
  splits a line into whitespace-separated tokens, and classifies a line by its
  leading directive.
- `blif.dfy` (module `Blif`) holds the reader itself.
  - Value-level functions say what each directive does to the graph
    (`InputTokens`, `OutputTokens`, `NamesTokens`, `SetKind`). `Run` folds
    them over the logical lines, `TypePass` is the final typing pass, and
    `Parse` is the whole read.
  - The class `Graph` does the same work in place over the node arena, the
    name map and the `inputs` and `outputs` lists. `Graph.ParseBlif` is proved
    to leave exactly `Parse(raw)`.
- `scheduler.dfy` (module `Scheduling`) holds the classification of operations
  and the `Scheduler` class.
  - `Scheduler` computes priorities with the memoised depth-first search.
  - It then runs the time-step loop. Each step does three things: it collects
    the ready operations, takes the highest-priority ones of each class up to
    that class's limit, and appends them as the next row of `schedule`.
  - The loop keeps `ScheduleInvariant`, which bundles these properties:
    - every recorded time belongs to an operation;
    - row t-1 lists each node whose time is t exactly once;
    - rows are non-empty;
    - every operation predecessor finishes strictly earlier;
    - no step exceeds a class limit;
    - a node chosen at a step has priority at least that of any ready node of
      its class left for later;
    - a ready node is left for later only when its class is full.

The input lines are a parameter (`seq<string>`), not a file.

## Model

| member | source | states |
|---|---|---|
| Scheduling.GetOperationType | main/Scheduler.cpp:11-16 | Gives 0 for AND, 1 for OR and 2 for NOT, each if and only if. Every other type, including INPUT, OUTPUT, WIRE and untyped, gives -1. |
| Netlist.PriorityOrdering | main/Scheduler.cpp:18-47 | On an acyclic graph a sink has priority 1. Every other node's priority is exactly one more than that of some successor, and strictly greater than each successor's. So every priority is at least 1. |
| Netlist.PriorityUnfold | main/Scheduler.cpp:24-30 | The depth-first recurrence holds: a node's priority is one more than the largest priority among its successors. |
| Netlist.MaxHeightIsMax | main/Scheduler.cpp:24-28 | The running maximum over successor levels is at least each of them, and equal to one of them when there are any. |
| Netlist.Height | main/Scheduler.cpp:21-31 | A search allowed `fuel` levels finds a path of at most `fuel` nodes, and of at least the node itself when `fuel` is positive. |
| Netlist.Priority | main/Scheduler.cpp:18-47 | Every priority lies between 1 and the number of nodes. |
| Scheduling.Budget.Limit | main/Scheduler.cpp:101-104 | The AND, OR and NOT classes (0, 1, 2) get their own limit; any other operation type gets 0 units. |
| Scheduling.Scheduler.Dfs | main/Scheduler.cpp:21-31 | Returns the node's exact priority and records it. Every node recorded before stays recorded. Every node marked visited either has its priority recorded, or was already on the search path. |
| Scheduling.Scheduler.ComputeNodePriorities | main/Scheduler.cpp:18-47 | Afterwards every node has a recorded priority equal to `Priority`. This is under acyclicity: sinks are seeded with 1, then every unvisited node is searched. |
| Scheduling.Scheduler.OperationNodes | main/Scheduler.cpp:54-60 | The initial unscheduled set is exactly the set of nodes whose operation type is not -1. |
| Scheduling.CollectReady | main/Scheduler.cpp:67-80 | For each class, the ready set is exactly the unscheduled operations of that class that have no direct predecessor still unscheduled. |
| Scheduling.SelectByPriority | main/Scheduler.cpp:96-110 | The choice equals the first min(size, limit) entries of a descending-priority sort. It takes that many distinct ready nodes (none when the limit is 0 or less), in non-increasing priority. No node left out has higher priority than a chosen one. |
| Scheduling.LeftOutMeansFull | main/Scheduler.cpp:106-107 | If a ready node is left out, the class took exactly max(0, limit) nodes. |
| Scheduling.Commit | main/Scheduler.cpp:109-115 | Each chosen node gets the current time in `nodeTime` and is appended to the row. The chosen nodes, and only those, are removed from the unscheduled set. |
| Scheduling.ChooseRow | main/Scheduler.cpp:65-107 | Each class's choice is the top-by-priority of its ready set, where readiness is judged against the unscheduled set as it stood when the step began. The AND, NOT and OR choices are pairwise distinct and all unscheduled. |
| Scheduling.CommitRow | main/Scheduler.cpp:91-116 | The row is the AND choice, then the NOT choice, then the OR choice, in that order. `nodeTime` gains exactly the row at the step's time. The unscheduled set loses exactly the row. |
| Scheduling.RowCounts | main/Scheduler.cpp:84-113 | The row holds as many nodes of each class as that class's choice. |
| Scheduling.StepChoice | main/Scheduler.cpp:64-116 | A step's row satisfies all of the following: its nodes were ready and unscheduled; each appears once; it fits every class limit; a chosen node outranks every ready node of its class that waits; a class with a waiting ready node is full. |
| Scheduling.StepKeepsPrecedence | main/Scheduler.cpp:67-80 | After a step, every operation predecessor of every timed node has a strictly smaller time. |
| Scheduling.StepKeepsBudget | main/Scheduler.cpp:101-113 | After a step, no row holds more nodes of a class than the class limit, and none of a class whose limit is 0 or less. |
| Scheduling.StepKeepsPriority | main/Scheduler.cpp:97-109 | After a step, priority selection holds at every step so far. |
| Scheduling.StepKeepsRows | main/Scheduler.cpp:109-119 | After a step, row t-1 still lists, each once, exactly the nodes with time t. |
| Scheduling.StepKeepsInvariant | main/Scheduler.cpp:63-121 | A non-empty step preserves the whole schedule invariant. |
| Scheduling.ReadyExists | main/Scheduler.cpp:63-80 | On an acyclic graph a non-empty unscheduled set always holds a ready operation. |
| Scheduling.StallMeansNoUnits | main/Scheduler.cpp:101-115 | A step that schedules nothing implies that some operation belongs to a class whose limit is 0 or less. |
| Scheduling.CompletedMeansUnits | main/Scheduler.cpp:63-121 | When every operation has been scheduled, every operation's class has a limit of at least 1. |
| Scheduling.StepOutcome | main/Scheduler.cpp:64-120 | An empty row leaves the times unchanged and implies some class has no units. A non-empty row keeps the invariant and strictly reduces the number of unscheduled operations. |
| Scheduling.Scheduler.Step | main/Scheduler.cpp:64-120 | Runs one step in place. The unscheduled set stays equal to the operations without a time. A non-empty row is appended to `schedule`; an empty row changes nothing. The invariant is kept. |
| Scheduling.LoopExit | main/Scheduler.cpp:63-123 | At loop exit, `Completed` means every operation has a time, and the number of rows is at most the number of operations. `Stalled` holds exactly when some operation's class has a limit of 0 or less. With no operations there are no rows. |
| Scheduling.Scheduler.StepLoop | main/Scheduler.cpp:62-123 | The number of steps taken is the number of rows. The invariant holds at the end, and the results match those stated for `LoopExit`. |
| Scheduling.Scheduler.HeuristicSchedule | main/Scheduler.cpp:49-124 | Priorities are exact and the schedule invariant holds. `latency` equals the number of rows, and 0 when there are no operations. The loop completes, with latency at most the number of operations, exactly when no operation's class has a limit of 0 or less. |
| Scheduling.Scheduler.GetNodeTime | main/Scheduler.cpp:126-134 | Returns -1 exactly when the node is in no row. Otherwise it returns t, with 1 <= t <= latency and the node in row t-1. |
| BlifText.StripComment | main/Graph.cpp:27-30 | The result is a prefix of the line and contains no `#`. When it is shorter than the line, the line has `#` right after it. |
| BlifText.Tokens | main/Graph.cpp:41-42 | Every token is non-empty and contains no whitespace. |
| BlifText.TokensSplit | main/Graph.cpp:41-42 | A whitespace character separates tokens: the tokens of text around it are the tokens on its left, followed by the tokens on its right. |
| BlifText.TokensOfSpaced | main/Graph.cpp:41-42 | Tokenising tokens written out with separating spaces gives them back. |
| BlifText.NextLine | main/Graph.cpp:32-39 | A line ending in a backslash completes no logical line. Any other line clears the held text and completes exactly one logical line, `Joined(held, line)`: the line without its comment when nothing is held, otherwise the held text, one space, then that line. |
| BlifText.Logical | main/Graph.cpp:25-39 | Neither the held text nor any completed logical line contains `#`. No logical line ends in a backslash. There are no more logical lines than physical ones. |
| BlifText.Continuation | main/Graph.cpp:32-39 | A backslash line followed by an ordinary line gives one logical line: the first line without its backslash, one space, then the second line without its comment. |
| BlifText.LogicalPrefix | main/Graph.cpp:25-39 | Reading more physical lines only appends logical lines. |
| BlifText.Classify | main/Graph.cpp:44-104 | A line is a cover row if and only if it starts with none of `.model`, `.inputs`, `.outputs`, `.names` or `.end`. |
| BlifText.Without | main/Graph.cpp:77-82 | The result holds exactly the tokens different from the directive word, and is no longer than the input. |
| BlifText.WithoutOne | main/Graph.cpp:78-81 | A single token is kept exactly when it is not the directive word. |
| BlifText.WithoutAppend | main/Graph.cpp:77-82 | Filtering keeps order and repeats: the filter of a concatenation is the filter of the first part followed by the filter of the second. |
| BlifText.WithoutAbsent | main/Graph.cpp:77-82 | Tokens none of which is the directive word all come through, in order and with their repeats. |
| Blif.InputToken | main/Graph.cpp:49-56 | Any token but `.inputs` is a known name afterwards. Known names keep their ids, and `outputs` is unchanged. |
| Blif.InputTokens | main/Graph.cpp:47-58 | Every token but `.inputs` is a known name afterwards. Names only grow, known names keep their ids, and `outputs` is unchanged. |
| Blif.InputTokensEffect | main/Graph.cpp:47-58 | An `.inputs` line creates one INPUT node with no edges for each new name, with consecutive ids. It appends exactly those ids to `inputs` and leaves known names, existing nodes and `outputs` alone. |
| Blif.OutputToken | main/Graph.cpp:61-73 | Any token but `.outputs` is a known name afterwards. Known names keep their ids, and `inputs` is unchanged. |
| Blif.OutputTokens | main/Graph.cpp:59-74 | Every token but `.outputs` is a known name afterwards. Names only grow, known names keep their ids, and `inputs` is unchanged. |
| Blif.OutputTokensLists | main/Graph.cpp:59-74 | An `.outputs` line appends to `outputs` the node of every name on the line, in order, whether the name was known or new. It leaves `inputs` alone. |
| Blif.OutputTokensNames | main/Graph.cpp:59-74 | An `.outputs` line adds exactly its new names and keeps the ids of the known ones. |
| Blif.OutputTokensNodes | main/Graph.cpp:59-74 | After an `.outputs` line, a known node named on the line is retyped OUTPUT with nothing else changed, and a new one is an OUTPUT with no edges. Every other node is unchanged. |
| Blif.GateInputs | main/Graph.cpp:89-98 | After the operand loop every operand is a known name. The gate and every known name keep their ids, and `inputs` and `outputs` are unchanged. |
| Blif.NamesTokens | main/Graph.cpp:83-99 | Every gate token is a known name afterwards. Known names keep their ids, and `inputs` and `outputs` are unchanged. |
| Blif.NamesTokensEffect | main/Graph.cpp:83-99 | For a `.names` line, the gate keeps its node, or gets a new untyped one with the next id. Every node other than the gate and the operands is unchanged. No node changes name, id or type, new nodes are untyped, and `inputs` and `outputs` are untouched. |
| Blif.NamesTokensLists | main/Graph.cpp:83-99 | For a `.names` line, the gate's predecessors grow by the operands' ids in order. Each node's successors grow by the gate once for each time the node occurs among the operands. No other node's predecessors change. |
| Blif.GateInputsKeys | main/Graph.cpp:89-94 | After the operand loop, the known names are exactly the old names and the operands. |
| Blif.GateInputsPreds | main/Graph.cpp:89-98 | The operand loop appends the operands' ids, in order, to the gate's predecessors. |
| Blif.GateInputsSuccs | main/Graph.cpp:89-98 | After the operand loop, each node's successor list is its old list (empty for a new node) followed by the gate once for each time the node occurs among the operands. Every node but the gate keeps its predecessors. |
| Blif.OperandStepLists | main/Graph.cpp:90-97 | One operand: its node's successors grow by the gate, no other successor list changes, and only the gate's predecessors change. Known names keep their ids. |
| Blif.GateInputsFrame | main/Graph.cpp:89-98 | The operand loop keeps every node's name, id and type. Nodes it creates are untyped, and `inputs` and `outputs` are unchanged. |
| Blif.GateInputsUntouched | main/Graph.cpp:89-98 | The operand loop changes no node other than the gate and the operands. |
| Blif.ConnectKeepsShape | main/Graph.cpp:96-97 | Adding an edge at both ends keeps edges in range and predecessor and successor lists mutual. |
| Blif.CreateKeepsShape | main/Graph.cpp:52-53 | Creating a node under a new name keeps the graph's shape. |
| Blif.CoverKind | main/Graph.cpp:108-116 | A first token of one character gives NOT. A longer one containing `-` gives OR. A longer one without `-` gives AND. Each holds in both directions. |
| Blif.LineStep | main/Graph.cpp:41-121 | Every name stays in range and the awaited gate stays a known name. The stop flag is set exactly by `.end`. Names only grow. Only `.names` and cover lines change the awaited gate. |
| Blif.Run | main/Graph.cpp:25-122 | The reader has stopped exactly when one of the logical lines is `.end`, and its state is consistent. |
| Blif.RunStep | main/Graph.cpp:41-121 | Before `.end`, each logical line is one reader step. |
| Blif.CoverSetsType | main/Graph.cpp:104-121 | A cover row with tokens, while a gate awaits one, gives that gate the type of its first token and clears the awaited gate. Nothing else changes. Without an awaited gate or without tokens, the row changes nothing. |
| Blif.CoverFirstRowOnly | main/Graph.cpp:106-120 | Only the first row of a cover sets the type: a second cover row after it changes nothing. |
| Blif.EndStops | main/Graph.cpp:101-102 | Once `.end` has been read, no later logical line changes the reader's state. |
| Blif.ParseStopsAtEnd | main/Graph.cpp:101-102 | Physical lines after the one that completes `.end` do not affect the parse. |
| Blif.Retype | main/Graph.cpp:127-138 | The result is typed. An already typed node is unchanged. An untyped node becomes INPUT exactly when it has no predecessors, OUTPUT exactly when it has predecessors but no successors, and WIRE exactly when it has both. Name, id and edges are kept. |
| Blif.RetypeAll | main/Graph.cpp:125-139 | The pass keeps the number of nodes and leaves every node typed. |
| Blif.RetypeAllNodes | main/Graph.cpp:125-139 | The final pass treats every node independently. |
| Blif.TypePass | main/Graph.cpp:125-139 | The node count and the names are kept, every node is typed, and `inputs` and `outputs` only grow at their ends. |
| Blif.NewInputsExact | main/Graph.cpp:128-131 | The ids the final pass appends to `inputs` are, in increasing order, exactly the untyped nodes without predecessors. |
| Blif.NewOutputsExact | main/Graph.cpp:132-135 | The ids appended to `outputs` are, in increasing order, exactly the untyped nodes that have predecessors but no successors. |
| Blif.TypePassTypesAll | main/Graph.cpp:125-139 | After the final pass no node is untyped. A formerly untyped node is INPUT exactly when it has no predecessors, OUTPUT exactly when it has predecessors but no successors, and WIRE exactly when it has both. Typed nodes, names and edges are unchanged, and the graph keeps its shape. |
| Blif.PartialPassStep | main/Graph.cpp:125-139 | The final pass over the first i+1 nodes is the pass over the first i, then one node. |
| Blif.Parse | main/Graph.cpp:13-142 | Every name denotes a node, and no node is left untyped. |
| Blif.ParseShaped | main/Graph.cpp:13-142 | The graph the reader delivers satisfies all of the following: node i has id i; names and nodes correspond one to one; edges are in range and mutual; the lists hold node ids; no node is untyped. |
| Blif.LineStepKeepsShape | main/Graph.cpp:41-121 | Every kind of logical line keeps the graph's shape. |
| Blif.Graph.NewNode | main/Graph.cpp:52-53 | The new node gets the next id, the given name and type, and no edges. It is stored under its name. |
| Blif.Graph.ReadInputs | main/Graph.cpp:47-58 | In place, the state becomes `InputTokens` of the old state and the line's tokens. |
| Blif.Graph.ReadOutputs | main/Graph.cpp:59-74 | In place, the state becomes `OutputTokens` of the old state and the line's tokens. |
| Blif.Graph.GateTokens | main/Graph.cpp:77-82 | The collected gate tokens are the line's tokens without `.names`, in order. |
| Blif.Graph.ConnectOperand | main/Graph.cpp:90-97 | One operand, in place: it is created untyped when new, then connected to the gate. |
| Blif.Graph.AddEdge | main/Graph.cpp:96-97 | The edge is added to both ends: the gate is appended to the operand's successors, and the operand to the gate's predecessors. |
| Blif.Graph.ReadGate | main/Graph.cpp:83-99 | In place, the state becomes `NamesTokens` of the old state and the gate tokens. |
| Blif.Graph.SetType | main/Graph.cpp:108-116 | Only the given node's type changes. |
| Blif.Graph.ReadLine | main/Graph.cpp:41-121 | One logical line, in place, does exactly what `LineStep` says. It reports whether the line was `.end`. |
| Blif.Graph.TypeNode | main/Graph.cpp:126-138 | One node of the final pass is retyped as `Retype` says. Its id is appended to `inputs` or `outputs` when it becomes INPUT or OUTPUT. |
| Blif.Graph.TypeUntyped | main/Graph.cpp:125-139 | In place, the state becomes `TypePass` of the old state. |
| Blif.Graph.ParseBlif | main/Graph.cpp:13-142 | Reading the physical lines into an empty graph leaves exactly `Parse(raw)`. |

## Left out

- Opening the file and `exit(1)` on failure, `printGraph`, `printSchedule` and `~Graph` are I/O or memory management. The lines arrive as a sequence of strings.
- The exact scheduler of `main/ILPScheduler.cpp` calls into the Gurobi solver, and `main/main.cpp` is command-line handling; neither is part of this model.
- The `std::map` keyed by name orders iteration by name. The model visits nodes in id order instead, in the final typing pass and in `computeNodePriorities`. Node types and priorities do not depend on this order.
- Blif.NewInputsExact: the ids appended in the final pass are in increasing id order, whereas the source appends them in name order. The set of ids appended is the same.
- Blif.NewOutputsExact: same ordering difference as `NewInputsExact`.
- Blif.Graph.TypeUntyped: same ordering difference as `NewInputsExact`.
- Scheduling.SelectByPriority: `std::sort` is not stable, so the model fixes no order among equal priorities. The contract admits any choice a descending-priority sort could produce.
- Scheduling.Scheduler.HeuristicSchedule: the source has no progress check. A step that schedules nothing is pushed as an empty row and repeated forever. The model stops at that step with `Stalled` instead, and does not append the empty row. `Stalled` is proved to happen exactly when some operation's class has a limit of 0 or less.
- Scheduling.Scheduler.HeuristicSchedule: requires an acyclic graph. On a cycle the source's search reads a default priority of 0 for a node still on the search path; that is not modelled.
- Scheduling.Scheduler.HeuristicSchedule: requires a scheduler that has not run yet, because the source appends to `schedule` and `nodeTime` across calls.
- Scheduling.Scheduler.constructor: the scheduler keeps the graph's node arena as a value taken at construction. The graph is not changed while scheduling.
- Blif.Graph.ParseBlif: requires an empty graph, as when it is called on a fresh object. The `nodeId` counter is the arena's length, which it always equals in the source.
- Node objects and pointers become ids into the arena. Aliasing between a node in `nodes`, `inputs` and `outputs` is represented by sharing the id.
- Strings are sequences of characters. Whitespace is the set `operator>>` skips in the C locale, and no encoding or locale is modelled.
