/**
 * The heuristic resource-constrained list scheduler: critical-path priorities
 * computed by a memoised depth-first search, then a greedy loop that fills each
 * time step with the highest-priority ready operations of each resource class.
 */
module Scheduling {
  import opened Netlist
  import Blif

  /** Resource class of a node: 0 for AND, 1 for OR, 2 for NOT and -1 for every
      other type (INPUT, OUTPUT, WIRE and the empty type). */
  function GetOperationType(node: Node): (r: int)
    ensures -1 <= r <= 2
    ensures r == -1 <==> !(node.kind.And? || node.kind.Or? || node.kind.Not?)
    ensures node.kind.And? <==> r == 0
    ensures node.kind.Or? <==> r == 1
    ensures node.kind.Not? <==> r == 2
  {
    match node.kind
    case And => 0
    case Or => 1
    case Not => 2
    case _ => -1
  }

  /** Operation nodes are the only ones that are scheduled. */
  predicate IsOp(nodes: seq<Node>, v: nat)
  {
    v < |nodes| && GetOperationType(nodes[v]) != -1
  }

  function OpIds(nodes: seq<Node>): set<nat>
  {
    set v: nat | v < |nodes| && GetOperationType(nodes[v]) != -1
  }

  /** Per-step unit limits of the three resource classes. */
  datatype Budget = Budget(andLimit: int, orLimit: int, notLimit: int)
  {
    /** The limit of a class; 0 for anything that is not a class. */
    function Limit(opType: int): (r: int)
      ensures opType == 0 ==> r == andLimit
      ensures opType == 1 ==> r == orLimit
      ensures opType == 2 ==> r == notLimit
      ensures opType != 0 && opType != 1 && opType != 2 ==> r == 0
    {
      if opType == 0 then andLimit
      else if opType == 1 then orLimit
      else if opType == 2 then notLimit
      else 0
    }
  }

  /** How the greedy loop ends: every operation scheduled, or a step that
      scheduled nothing. In the latter case nothing changes from one step to the
      next, so the source repeats that step forever. */
  datatype Outcome = Completed | Stalled

  // ----------------------------------------------------------------------------
  // Readiness and selection within one time step
  // ----------------------------------------------------------------------------

  /** `v` is unscheduled and none of its direct predecessors is. */
  ghost predicate IsReady(nodes: seq<Node>, unscheduled: set<nat>, v: nat)
  {
    v in unscheduled && v < |nodes| &&
    forall k :: 0 <= k < |nodes[v].preds| ==> nodes[v].preds[k] !in unscheduled
  }

  /** The ready nodes of resource class `c`. */
  ghost function ReadySet(nodes: seq<Node>, unscheduled: set<nat>, c: int): set<nat>
  {
    set v | v in unscheduled && IsReady(nodes, unscheduled, v) && GetOperationType(nodes[v]) == c
  }

  /** Collects the ready nodes of each class from the unscheduled set as it
      stands before anything is scheduled in the step. */
  method CollectReady(nodes: seq<Node>, unscheduled: set<nat>) returns (readyAnd: set<nat>, readyOr: set<nat>, readyNot: set<nat>)
    requires forall v :: v in unscheduled ==> IsOp(nodes, v)
    ensures readyAnd == ReadySet(nodes, unscheduled, 0)
    ensures readyOr == ReadySet(nodes, unscheduled, 1)
    ensures readyNot == ReadySet(nodes, unscheduled, 2)
  {
    readyAnd, readyOr, readyNot := {}, {}, {};
    var todo := unscheduled;
    while todo != {}
      invariant todo <= unscheduled
      invariant readyAnd == set v | v in unscheduled - todo && IsReady(nodes, unscheduled, v) && GetOperationType(nodes[v]) == 0
      invariant readyOr == set v | v in unscheduled - todo && IsReady(nodes, unscheduled, v) && GetOperationType(nodes[v]) == 1
      invariant readyNot == set v | v in unscheduled - todo && IsReady(nodes, unscheduled, v) && GetOperationType(nodes[v]) == 2
      decreases todo
    {
      var v :| v in todo;
      var preds := nodes[v].preds;
      var ready := true;
      var k := 0;
      while k < |preds|
        invariant 0 <= k <= |preds|
        invariant ready == forall j :: 0 <= j < k ==> preds[j] !in unscheduled
      {
        if preds[k] in unscheduled {
          ready := false;
          break;
        }
        k := k + 1;
      }
      assert ready == IsReady(nodes, unscheduled, v);
      if ready {
        var opType := GetOperationType(nodes[v]);
        if opType == 0 {
          readyAnd := readyAnd + {v};
        } else if opType == 1 {
          readyOr := readyOr + {v};
        } else {
          readyNot := readyNot + {v};
        }
      }
      todo := todo - {v};
    }
  }

  function Min(a: int, b: int): int { if a < b then a else b }

  /** No entry of `s` appears twice. */
  ghost predicate Distinct(s: seq<nat>)
  {
    forall i, j :: 0 <= i < j < |s| ==> s[i] != s[j]
  }

  /** `chosen` is what sorting `ready` by descending priority and taking the
      first `limit` entries yields, for some order among equal priorities: as
      many distinct ready nodes as the limit allows (none for a limit of 0 or
      less), in non-increasing priority, none of lower priority than a ready
      node left out. */
  ghost predicate IsTopByPriority(ready: set<nat>, limit: int, priority: map<nat, int>, chosen: seq<nat>)
    requires forall v :: v in ready ==> v in priority
  {
    && (forall i :: 0 <= i < |chosen| ==> chosen[i] in ready)
    && Distinct(chosen)
    && |chosen| == Min(|ready|, Max(0, limit))
    && (forall i, j :: 0 <= i < j < |chosen| ==> priority[chosen[i]] >= priority[chosen[j]])
    && (forall i, u :: 0 <= i < |chosen| && u in ready && u !in chosen ==> priority[chosen[i]] >= priority[u])
  }

  lemma {:induction false} HighestPriorityExists(s: set<nat>, priority: map<nat, int>)
    requires s != {} && forall v :: v in s ==> v in priority
    ensures exists b :: b in s && forall u :: u in s ==> priority[u] <= priority[b]
    decreases s
  {
    var x :| x in s;
    if s != {x} {
      HighestPriorityExists(s - {x}, priority);
      var b :| b in s - {x} && forall u :: u in s - {x} ==> priority[u] <= priority[b];
      if priority[x] > priority[b] {
        assert forall u :: u in s ==> priority[u] <= priority[x];
      }
    }
  }

  /** Orders a class's ready nodes by descending priority and keeps as many as
      its limit allows. Equal priorities may come out in any order, as with an
      unstable sort. */
  method SelectByPriority(ready: set<nat>, limit: int, priority: map<nat, int>) returns (chosen: seq<nat>)
    requires forall v :: v in ready ==> v in priority
    ensures IsTopByPriority(ready, limit, priority, chosen)
  {
    chosen := [];
    var rest := ready;
    while |chosen| < limit && rest != {}
      invariant forall u :: u in rest <==> u in ready && u !in chosen
      invariant forall i :: 0 <= i < |chosen| ==> chosen[i] in ready
      invariant Distinct(chosen)
      invariant |chosen| + |rest| == |ready|
      invariant |chosen| <= Max(0, limit)
      invariant forall i, j :: 0 <= i < j < |chosen| ==> priority[chosen[i]] >= priority[chosen[j]]
      invariant forall i, u :: 0 <= i < |chosen| && u in rest ==> priority[chosen[i]] >= priority[u]
      decreases |rest|
    {
      HighestPriorityExists(rest, priority);
      var best :| best in rest && forall u :: u in rest ==> priority[u] <= priority[best];
      chosen := chosen + [best];
      rest := rest - {best};
    }
  }

  // ----------------------------------------------------------------------------
  // Counting
  // ----------------------------------------------------------------------------

  /** Resource class of a node id; -1 outside the arena. */
  function ClassOf(nodes: seq<Node>, v: nat): int
  {
    if v < |nodes| then GetOperationType(nodes[v]) else -1
  }

  /** Number of entries of `row` whose resource class is `c`. */
  function ClassCount(nodes: seq<Node>, row: seq<nat>, c: int): nat
  {
    if row == [] then 0
    else (if ClassOf(nodes, row[0]) == c then 1 else 0) + ClassCount(nodes, row[1..], c)
  }

  lemma {:induction false} ClassCountAppend(nodes: seq<Node>, a: seq<nat>, b: seq<nat>, c: int)
    ensures ClassCount(nodes, a + b, c) == ClassCount(nodes, a, c) + ClassCount(nodes, b, c)
    decreases |a|
  {
    if a == [] {
      assert a + b == b;
    } else {
      assert (a + b)[0] == a[0];
      assert (a + b)[1..] == a[1..] + b;
      ClassCountAppend(nodes, a[1..], b, c);
    }
  }

  /** A row whose entries all have class `d` holds |row| nodes of class `d` and
      none of any other class. */
  lemma {:induction false} ClassCountUniform(nodes: seq<Node>, row: seq<nat>, c: int, d: int)
    requires forall i :: 0 <= i < |row| ==> ClassOf(nodes, row[i]) == d
    ensures ClassCount(nodes, row, c) == if c == d then |row| else 0
    decreases |row|
  {
    if row != [] {
      ClassCountUniform(nodes, row[1..], c, d);
    }
  }

  lemma {:induction false} SubsetCard(a: set<nat>, b: set<nat>)
    requires a <= b
    ensures |a| <= |b|
    decreases a
  {
    if a != {} {
      var x :| x in a;
      assert a - {x} <= b - {x};
      SubsetCard(a - {x}, b - {x});
      assert a == (a - {x}) + {x};
      assert b == (b - {x}) + {x};
    }
  }

  function Elements(s: seq<nat>): set<nat>
  {
    set x | x in s
  }

  lemma {:induction false} DistinctCard(s: seq<nat>)
    requires Distinct(s)
    ensures |Elements(s)| == |s|
    decreases |s|
  {
    if s != [] {
      var init := s[..|s| - 1];
      var last := s[|s| - 1];
      assert s == init + [last];
      DistinctCard(init);
      assert last !in Elements(init);
      assert Elements(s) == Elements(init) + {last};
    }
  }

  /** A ready node that was not chosen means the class used its whole budget. */
  lemma LeftOutMeansFull(ready: set<nat>, limit: int, priority: map<nat, int>, chosen: seq<nat>, u: nat)
    requires forall v :: v in ready ==> v in priority
    requires IsTopByPriority(ready, limit, priority, chosen)
    requires u in ready && u !in chosen
    ensures |chosen| == Max(0, limit)
  {
    DistinctCard(chosen);
    SubsetCard(Elements(chosen), ready - {u});
    assert ready == (ready - {u}) + {u};
  }

  // ----------------------------------------------------------------------------
  // The state of the greedy loop, read off `nodeTime` and `schedule`
  // ----------------------------------------------------------------------------

  /** Row t-1 of `schedule` lists, each once, exactly the nodes whose time is t. */
  ghost predicate RowsMatchTimes(nodeTime: map<nat, int>, schedule: seq<seq<nat>>)
  {
    && (forall v :: v in nodeTime ==> 1 <= nodeTime[v] <= |schedule|)
    && (forall t, i :: 0 <= t < |schedule| && 0 <= i < |schedule[t]| ==>
          schedule[t][i] in nodeTime && nodeTime[schedule[t][i]] == t + 1)
    && (forall v :: v in nodeTime ==> v in schedule[nodeTime[v] - 1])
    && (forall t :: 0 <= t < |schedule| ==> Distinct(schedule[t]))
  }

  /** Every operation predecessor of `u` has a time before `t`. */
  ghost predicate PredsDoneBefore(nodes: seq<Node>, nodeTime: map<nat, int>, u: nat, t: int)
    requires u < |nodes|
  {
    forall k :: 0 <= k < |nodes[u].preds| && IsOp(nodes, nodes[u].preds[k]) ==>
      nodes[u].preds[k] in nodeTime && nodeTime[nodes[u].preds[k]] < t
  }

  /** Operation `u` was ready at step `t` (not scheduled before `t`, all its
      operation predecessors were) and was not scheduled at `t`. */
  ghost predicate PassedOver(nodes: seq<Node>, nodeTime: map<nat, int>, u: nat, t: int)
  {
    IsOp(nodes, u) && (u !in nodeTime || nodeTime[u] > t) && PredsDoneBefore(nodes, nodeTime, u, t)
  }

  /** Precedence: a node starts strictly after each operation it depends on. */
  ghost predicate PrecedenceRespected(nodes: seq<Node>, nodeTime: map<nat, int>)
  {
    forall v :: v in nodeTime && v < |nodes| ==> PredsDoneBefore(nodes, nodeTime, v, nodeTime[v])
  }

  /** Resource bound: no step uses more units of a class than its limit, and none
      at all of a class whose limit is 0 or less. */
  ghost predicate WithinBudget(nodes: seq<Node>, budget: Budget, schedule: seq<seq<nat>>)
  {
    forall t, c {:trigger ClassCount(nodes, schedule[t], c)} :: 0 <= t < |schedule| && 0 <= c <= 2 ==> ClassCount(nodes, schedule[t], c) <= Max(0, budget.Limit(c))
  }

  /** Priority selection: a node scheduled at step t has priority at least that of
      every node of its class that was ready at t and left for later. */
  ghost predicate PriorityRespected(nodes: seq<Node>, priority: map<nat, int>, nodeTime: map<nat, int>)
  {
    forall v, u {:trigger PassedOver(nodes, nodeTime, u, nodeTime[v])} :: v in nodeTime && PassedOver(nodes, nodeTime, u, nodeTime[v]) && ClassOf(nodes, u) == ClassOf(nodes, v) ==>
      v in priority && u in priority && priority[v] >= priority[u]
  }

  /** Greed: a ready node is left for later only when its class is full. */
  ghost predicate BudgetFilled(nodes: seq<Node>, budget: Budget, nodeTime: map<nat, int>, schedule: seq<seq<nat>>)
  {
    forall u, t {:trigger PassedOver(nodes, nodeTime, u, t)} :: 1 <= t <= |schedule| && PassedOver(nodes, nodeTime, u, t) ==>
      ClassCount(nodes, schedule[t - 1], ClassOf(nodes, u)) == Max(0, budget.Limit(ClassOf(nodes, u)))
  }

  ghost predicate ScheduleInvariant(nodes: seq<Node>, budget: Budget, priority: map<nat, int>,
                                    nodeTime: map<nat, int>, schedule: seq<seq<nat>>)
  {
    && nodeTime.Keys <= OpIds(nodes)
    && RowsMatchTimes(nodeTime, schedule)
    && (forall t :: 0 <= t < |schedule| ==> schedule[t] != [])
    && PrecedenceRespected(nodes, nodeTime)
    && WithinBudget(nodes, budget, schedule)
    && PriorityRespected(nodes, priority, nodeTime)
    && BudgetFilled(nodes, budget, nodeTime, schedule)
  }

  /** `nodeTime'` is `nodeTime` with every node of `row` given time `t`. */
  ghost predicate Extends(nodeTime: map<nat, int>, row: seq<nat>, t: int, nodeTime': map<nat, int>)
  {
    && (forall v :: v in nodeTime' <==> v in nodeTime || v in row)
    && (forall v :: v in row ==> nodeTime'[v] == t)
    && (forall v :: v in nodeTime ==> nodeTime'[v] == nodeTime[v])
  }

  /** The ready set of class `c` among the three given. */
  function PickClass(c: int, readyAnd: set<nat>, readyOr: set<nat>, readyNot: set<nat>): set<nat>
  {
    if c == 0 then readyAnd else if c == 1 then readyOr else readyNot
  }

  lemma PickReady(nodes: seq<Node>, unscheduled: set<nat>, c: int)
    requires 0 <= c <= 2
    ensures PickClass(c, ReadySet(nodes, unscheduled, 0), ReadySet(nodes, unscheduled, 1), ReadySet(nodes, unscheduled, 2))
      == ReadySet(nodes, unscheduled, c)
  {
  }

  lemma DistinctConcat(a: seq<nat>, b: seq<nat>)
    requires Distinct(a) && Distinct(b)
    requires forall v :: v in a ==> v !in b
    ensures Distinct(a + b)
  {
    forall i, j | 0 <= i < j < |a + b| ensures (a + b)[i] != (a + b)[j] {
      if i < |a| && j >= |a| {
        assert (a + b)[i] in a && (a + b)[j] in b;
      }
    }
  }

  /** The two parts of a sequence without repeats share no entry, and the first
      part has no repeats either. */
  lemma DistinctSplit(a: seq<nat>, b: seq<nat>)
    requires Distinct(a + b)
    ensures Distinct(a)
    ensures forall v :: v in b ==> v !in a
  {
    forall i, j | 0 <= i < j < |a| ensures a[i] != a[j] {
      assert a[i] == (a + b)[i] && a[j] == (a + b)[j];
    }
    forall v | v in b ensures v !in a {
      var j :| 0 <= j < |b| && b[j] == v;
      forall i | 0 <= i < |a| ensures a[i] != v {
        assert (a + b)[i] != (a + b)[|a| + j];
      }
    }
  }

  /** A row made of one list per class counts each class by its list's length. */
  lemma RowCounts(nodes: seq<Node>, chosenAnd: seq<nat>, chosenOr: seq<nat>, chosenNot: seq<nat>)
    requires forall v :: v in chosenAnd ==> ClassOf(nodes, v) == 0
    requires forall v :: v in chosenOr ==> ClassOf(nodes, v) == 1
    requires forall v :: v in chosenNot ==> ClassOf(nodes, v) == 2
    ensures ClassCount(nodes, chosenAnd + chosenNot + chosenOr, 0) == |chosenAnd|
    ensures ClassCount(nodes, chosenAnd + chosenNot + chosenOr, 1) == |chosenOr|
    ensures ClassCount(nodes, chosenAnd + chosenNot + chosenOr, 2) == |chosenNot|
  {
    forall c | 0 <= c <= 2
      ensures ClassCount(nodes, chosenAnd + chosenNot + chosenOr, c) == (if c == 0 then |chosenAnd| else if c == 1 then |chosenOr| else |chosenNot|)
    {
      ClassCountAppend(nodes, chosenAnd + chosenNot, chosenOr, c);
      ClassCountAppend(nodes, chosenAnd, chosenNot, c);
      ClassCountUniform(nodes, chosenAnd, c, 0);
      ClassCountUniform(nodes, chosenNot, c, 2);
      ClassCountUniform(nodes, chosenOr, c, 1);
    }
  }

  /** A step's row `chosenAnd + chosenNot + chosenOr`, when each part is the top
      of its class's ready set, holds distinct ready nodes of the three classes
      and keeps each class within its limit. */
  lemma RowMembers(nodes: seq<Node>, budget: Budget, priority: map<nat, int>,
                     readyAnd: set<nat>, readyOr: set<nat>, readyNot: set<nat>,
                     chosenAnd: seq<nat>, chosenOr: seq<nat>, chosenNot: seq<nat>)
    requires forall v :: v in readyAnd ==> v in priority && ClassOf(nodes, v) == 0
    requires forall v :: v in readyOr ==> v in priority && ClassOf(nodes, v) == 1
    requires forall v :: v in readyNot ==> v in priority && ClassOf(nodes, v) == 2
    requires IsTopByPriority(readyAnd, budget.Limit(0), priority, chosenAnd)
    requires IsTopByPriority(readyOr, budget.Limit(1), priority, chosenOr)
    requires IsTopByPriority(readyNot, budget.Limit(2), priority, chosenNot)
    ensures Distinct(chosenAnd + chosenNot + chosenOr)
    ensures forall v :: v in chosenAnd + chosenNot + chosenOr ==>
      0 <= ClassOf(nodes, v) <= 2 && v in PickClass(ClassOf(nodes, v), readyAnd, readyOr, readyNot)
    ensures forall c {:trigger ClassCount(nodes, chosenAnd + chosenNot + chosenOr, c)} :: 0 <= c <= 2 ==> ClassCount(nodes, chosenAnd + chosenNot + chosenOr, c) <= Max(0, budget.Limit(c))
  {
    assert forall i :: 0 <= i < |chosenAnd| ==> chosenAnd[i] in readyAnd;
    assert forall i :: 0 <= i < |chosenOr| ==> chosenOr[i] in readyOr;
    assert forall i :: 0 <= i < |chosenNot| ==> chosenNot[i] in readyNot;
    DistinctConcat(chosenAnd, chosenNot);
    DistinctConcat(chosenAnd + chosenNot, chosenOr);
    RowCounts(nodes, chosenAnd, chosenOr, chosenNot);
  }

  /** In the same row no entry has lower priority than a ready node of its class
      that was left out, and a class with a ready node left out is full. */
  lemma RowIsTop(nodes: seq<Node>, budget: Budget, priority: map<nat, int>,
                     readyAnd: set<nat>, readyOr: set<nat>, readyNot: set<nat>,
                     chosenAnd: seq<nat>, chosenOr: seq<nat>, chosenNot: seq<nat>)
    requires forall v :: v in readyAnd ==> v in priority && ClassOf(nodes, v) == 0
    requires forall v :: v in readyOr ==> v in priority && ClassOf(nodes, v) == 1
    requires forall v :: v in readyNot ==> v in priority && ClassOf(nodes, v) == 2
    requires IsTopByPriority(readyAnd, budget.Limit(0), priority, chosenAnd)
    requires IsTopByPriority(readyOr, budget.Limit(1), priority, chosenOr)
    requires IsTopByPriority(readyNot, budget.Limit(2), priority, chosenNot)
    ensures forall v, u :: (v in chosenAnd + chosenNot + chosenOr && u !in chosenAnd + chosenNot + chosenOr &&
      u in PickClass(ClassOf(nodes, v), readyAnd, readyOr, readyNot)) ==> priority[v] >= priority[u]
    ensures forall u :: (0 <= ClassOf(nodes, u) <= 2 && u !in chosenAnd + chosenNot + chosenOr &&
      u in PickClass(ClassOf(nodes, u), readyAnd, readyOr, readyNot)) ==>
      ClassCount(nodes, chosenAnd + chosenNot + chosenOr, ClassOf(nodes, u)) == Max(0, budget.Limit(ClassOf(nodes, u)))
  {
    var row := chosenAnd + chosenNot + chosenOr;
    RowCounts(nodes, chosenAnd, chosenOr, chosenNot);
    forall u | 0 <= ClassOf(nodes, u) <= 2 && u !in row && u in PickClass(ClassOf(nodes, u), readyAnd, readyOr, readyNot)
      ensures ClassCount(nodes, row, ClassOf(nodes, u)) == Max(0, budget.Limit(ClassOf(nodes, u)))
    {
      var c := ClassOf(nodes, u);
      if c == 0 {
        LeftOutMeansFull(readyAnd, budget.Limit(0), priority, chosenAnd, u);
      } else if c == 1 {
        LeftOutMeansFull(readyOr, budget.Limit(1), priority, chosenOr, u);
      } else {
        LeftOutMeansFull(readyNot, budget.Limit(2), priority, chosenNot, u);
      }
    }
  }

  /** Whatever waits at the new step `t` was ready before the step and was not
      chosen; whatever waited at an earlier step already did before the step. */
  lemma WaitingWasReady(nodes: seq<Node>, nodeTime: map<nat, int>, unscheduled: set<nat>,
                        row: seq<nat>, t: int, nodeTime': map<nat, int>)
    requires unscheduled == OpIds(nodes) - nodeTime.Keys
    requires forall v :: v in nodeTime ==> nodeTime[v] < t
    requires Extends(nodeTime, row, t, nodeTime')
    ensures forall u: nat :: PassedOver(nodes, nodeTime', u, t) ==>
      u in ReadySet(nodes, unscheduled, ClassOf(nodes, u)) && u !in row
    ensures forall u: nat, t' {:trigger PassedOver(nodes, nodeTime', u, t')} :: t' < t && PassedOver(nodes, nodeTime', u, t') ==> PassedOver(nodes, nodeTime, u, t')
  {
    forall u: nat | PassedOver(nodes, nodeTime', u, t)
      ensures u in ReadySet(nodes, unscheduled, ClassOf(nodes, u)) && u !in row
    {
      assert u !in nodeTime';
      forall k | 0 <= k < |nodes[u].preds|
        ensures nodes[u].preds[k] !in unscheduled
      {
        var p := nodes[u].preds[k];
        if IsOp(nodes, p) {
          assert p in nodeTime' && nodeTime'[p] < t;
          assert p !in row;
        }
      }
      assert IsReady(nodes, unscheduled, u);
    }
    forall u: nat, t' | t' < t && PassedOver(nodes, nodeTime', u, t')
      ensures PassedOver(nodes, nodeTime, u, t')
    {
      forall k | 0 <= k < |nodes[u].preds| && IsOp(nodes, nodes[u].preds[k])
        ensures nodes[u].preds[k] in nodeTime && nodeTime[nodes[u].preds[k]] < t'
      {
        assert nodes[u].preds[k] !in row;
      }
    }
  }

  lemma StepKeepsOps(nodes: seq<Node>, nodeTime: map<nat, int>, unscheduled: set<nat>,
                     row: seq<nat>, t: int, nodeTime': map<nat, int>)
    requires nodeTime.Keys <= OpIds(nodes)
    requires unscheduled == OpIds(nodes) - nodeTime.Keys
    requires Extends(nodeTime, row, t, nodeTime')
    requires forall v :: v in row ==> IsReady(nodes, unscheduled, v)
    ensures nodeTime'.Keys <= OpIds(nodes)
  {
    forall v | v in nodeTime' ensures v in OpIds(nodes) {
      if v in row {
        assert IsReady(nodes, unscheduled, v);
      }
    }
  }

  lemma StepKeepsRowsNonEmpty(schedule: seq<seq<nat>>, row: seq<nat>)
    requires forall t :: 0 <= t < |schedule| ==> schedule[t] != []
    requires row != []
    ensures forall t :: 0 <= t < |schedule + [row]| ==> (schedule + [row])[t] != []
  {
    forall t | 0 <= t < |schedule + [row]| ensures (schedule + [row])[t] != [] {
      if t < |schedule| {
        assert (schedule + [row])[t] == schedule[t];
      }
    }
  }

  lemma StepKeepsRows(nodeTime: map<nat, int>, schedule: seq<seq<nat>>, row: seq<nat>, nodeTime': map<nat, int>)
    requires RowsMatchTimes(nodeTime, schedule)
    requires Extends(nodeTime, row, |schedule| + 1, nodeTime')
    requires forall v :: v in row ==> v !in nodeTime
    requires Distinct(row)
    ensures RowsMatchTimes(nodeTime', schedule + [row])
  {
    var schedule' := schedule + [row];
    forall t, i | 0 <= t < |schedule'| && 0 <= i < |schedule'[t]|
      ensures schedule'[t][i] in nodeTime' && nodeTime'[schedule'[t][i]] == t + 1
    {
      if t < |schedule| {
        assert schedule'[t] == schedule[t];
      } else {
        assert schedule'[t][i] in row;
      }
    }
    forall v | v in nodeTime'
      ensures v in schedule'[nodeTime'[v] - 1]
    {
      if v in nodeTime {
        assert schedule'[nodeTime[v] - 1] == schedule[nodeTime[v] - 1];
      }
    }
    forall t, i, j | 0 <= t < |schedule'| && 0 <= i < j < |schedule'[t]|
      ensures schedule'[t][i] != schedule'[t][j]
    {
      if t < |schedule| {
        assert schedule'[t] == schedule[t];
      }
    }
  }

  lemma StepKeepsPrecedence(nodes: seq<Node>, nodeTime: map<nat, int>, unscheduled: set<nat>,
                            row: seq<nat>, t: int, nodeTime': map<nat, int>)
    requires PrecedenceRespected(nodes, nodeTime)
    requires unscheduled == OpIds(nodes) - nodeTime.Keys
    requires forall v :: v in nodeTime ==> nodeTime[v] < t
    requires Extends(nodeTime, row, t, nodeTime')
    requires forall v :: v in row ==> IsReady(nodes, unscheduled, v)
    ensures PrecedenceRespected(nodes, nodeTime')
  {
    forall v | v in nodeTime' && v < |nodes|
      ensures PredsDoneBefore(nodes, nodeTime', v, nodeTime'[v])
    {
      if v in row {
        assert IsReady(nodes, unscheduled, v);
        forall k | 0 <= k < |nodes[v].preds| && IsOp(nodes, nodes[v].preds[k])
          ensures nodes[v].preds[k] in nodeTime' && nodeTime'[nodes[v].preds[k]] < nodeTime'[v]
        {
          assert nodes[v].preds[k] !in unscheduled;
        }
      } else {
        assert PredsDoneBefore(nodes, nodeTime, v, nodeTime[v]);
      }
    }
  }

  lemma StepKeepsBudget(nodes: seq<Node>, budget: Budget, schedule: seq<seq<nat>>, row: seq<nat>)
    requires WithinBudget(nodes, budget, schedule)
    requires forall c {:trigger ClassCount(nodes, row, c)} :: 0 <= c <= 2 ==> ClassCount(nodes, row, c) <= Max(0, budget.Limit(c))
    ensures WithinBudget(nodes, budget, schedule + [row])
  {
    var schedule' := schedule + [row];
    forall t, c | 0 <= t < |schedule'| && 0 <= c <= 2
      ensures ClassCount(nodes, schedule'[t], c) <= Max(0, budget.Limit(c))
    {
      if t < |schedule| {
        assert schedule'[t] == schedule[t];
      }
    }
  }

  lemma StepKeepsPriority(nodes: seq<Node>, priority: map<nat, int>, nodeTime: map<nat, int>,
                          row: seq<nat>, t: int, nodeTime': map<nat, int>)
    requires PriorityRespected(nodes, priority, nodeTime)
    requires forall v :: v in nodeTime ==> nodeTime[v] < t
    requires Extends(nodeTime, row, t, nodeTime')
    requires forall u: nat, t' {:trigger PassedOver(nodes, nodeTime', u, t')} :: t' < t && PassedOver(nodes, nodeTime', u, t') ==> PassedOver(nodes, nodeTime, u, t')
    requires forall v, u {:trigger v in row, PassedOver(nodes, nodeTime', u, t)} :: v in row && PassedOver(nodes, nodeTime', u, t) && ClassOf(nodes, u) == ClassOf(nodes, v) ==>
      v in priority && u in priority && priority[v] >= priority[u]
    ensures PriorityRespected(nodes, priority, nodeTime')
  {
    forall v, u | v in nodeTime' && PassedOver(nodes, nodeTime', u, nodeTime'[v]) && ClassOf(nodes, u) == ClassOf(nodes, v)
      ensures v in priority && u in priority && priority[v] >= priority[u]
    {
      if v !in row {
        assert PassedOver(nodes, nodeTime, u, nodeTime[v]);
      }
    }
  }

  lemma StepFillsBudget(nodes: seq<Node>, budget: Budget, nodeTime: map<nat, int>, schedule: seq<seq<nat>>,
                        row: seq<nat>, nodeTime': map<nat, int>)
    requires BudgetFilled(nodes, budget, nodeTime, schedule)
    requires forall u: nat, t' {:trigger PassedOver(nodes, nodeTime', u, t')} :: t' < |schedule| + 1 && PassedOver(nodes, nodeTime', u, t') ==> PassedOver(nodes, nodeTime, u, t')
    requires forall u :: PassedOver(nodes, nodeTime', u, |schedule| + 1) ==>
      ClassCount(nodes, row, ClassOf(nodes, u)) == Max(0, budget.Limit(ClassOf(nodes, u)))
    ensures BudgetFilled(nodes, budget, nodeTime', schedule + [row])
  {
    var schedule' := schedule + [row];
    forall u, t | 1 <= t <= |schedule'| && PassedOver(nodes, nodeTime', u, t)
      ensures ClassCount(nodes, schedule'[t - 1], ClassOf(nodes, u)) == Max(0, budget.Limit(ClassOf(nodes, u)))
    {
      if t < |schedule'| {
        assert schedule'[t - 1] == schedule[t - 1];
        assert PassedOver(nodes, nodeTime, u, t);
      }
    }
  }

  /** The facts about a step's `row` and the times `nodeTime'` it leads to that
      keep the schedule's properties. */
  ghost predicate GoodStep(nodes: seq<Node>, budget: Budget, priority: map<nat, int>,
                           nodeTime: map<nat, int>, unscheduled: set<nat>, row: seq<nat>, now: int, nodeTime': map<nat, int>)
  {
    && Extends(nodeTime, row, now, nodeTime')
    && (forall v :: v in row ==> IsReady(nodes, unscheduled, v) && v !in nodeTime)
    && Distinct(row)
    && (forall c {:trigger ClassCount(nodes, row, c)} :: 0 <= c <= 2 ==> ClassCount(nodes, row, c) <= Max(0, budget.Limit(c)))
    && (forall v, u {:trigger v in row, PassedOver(nodes, nodeTime', u, now)} :: (v in row && PassedOver(nodes, nodeTime', u, now) &&
      ClassOf(nodes, u) == ClassOf(nodes, v)) ==> v in priority && u in priority && priority[v] >= priority[u])
    && (forall u :: PassedOver(nodes, nodeTime', u, now) ==>
      ClassCount(nodes, row, ClassOf(nodes, u)) == Max(0, budget.Limit(ClassOf(nodes, u))))
    && (forall u: nat, t' {:trigger PassedOver(nodes, nodeTime', u, t')} :: t' < now && PassedOver(nodes, nodeTime', u, t') ==> PassedOver(nodes, nodeTime, u, t'))
  }

  /** What a greedy step's row satisfies, from the unscheduled set as it stood
      when the step began: its nodes were ready, appear once and fit every class
      limit; no node chosen at time `now` has lower priority than a node of its
      class that waits at `now`; a class with a waiting node is full at `now`;
      and nothing that waits at an earlier time is new. */
  lemma StepChoice(nodes: seq<Node>, budget: Budget, priority: map<nat, int>,
                   nodeTime: map<nat, int>, unscheduled: set<nat>,
                   chosenAnd: seq<nat>, chosenOr: seq<nat>, chosenNot: seq<nat>, now: int, nodeTime': map<nat, int>)
    requires unscheduled == OpIds(nodes) - nodeTime.Keys
    requires forall v :: v in unscheduled ==> v in priority
    requires IsTopByPriority(ReadySet(nodes, unscheduled, 0), budget.Limit(0), priority, chosenAnd)
    requires IsTopByPriority(ReadySet(nodes, unscheduled, 1), budget.Limit(1), priority, chosenOr)
    requires IsTopByPriority(ReadySet(nodes, unscheduled, 2), budget.Limit(2), priority, chosenNot)
    requires forall v :: v in nodeTime ==> nodeTime[v] < now
    requires Extends(nodeTime, chosenAnd + chosenNot + chosenOr, now, nodeTime')
    ensures GoodStep(nodes, budget, priority, nodeTime, unscheduled, chosenAnd + chosenNot + chosenOr, now, nodeTime')
  {
    var row := chosenAnd + chosenNot + chosenOr;
    var rA, rO, rN := ReadySet(nodes, unscheduled, 0), ReadySet(nodes, unscheduled, 1), ReadySet(nodes, unscheduled, 2);
    RowMembers(nodes, budget, priority, rA, rO, rN, chosenAnd, chosenOr, chosenNot);
    RowIsTop(nodes, budget, priority, rA, rO, rN, chosenAnd, chosenOr, chosenNot);
    WaitingWasReady(nodes, nodeTime, unscheduled, row, now, nodeTime');
    forall v | v in row ensures IsReady(nodes, unscheduled, v) && v !in nodeTime {
      PickReady(nodes, unscheduled, ClassOf(nodes, v));
    }
    forall v, u | v in row && PassedOver(nodes, nodeTime', u, now) && ClassOf(nodes, u) == ClassOf(nodes, v)
      ensures v in priority && u in priority && priority[v] >= priority[u]
    {
      assert 0 <= ClassOf(nodes, v) <= 2;
      PickReady(nodes, unscheduled, ClassOf(nodes, v));
    }
    forall u | PassedOver(nodes, nodeTime', u, now)
      ensures ClassCount(nodes, row, ClassOf(nodes, u)) == Max(0, budget.Limit(ClassOf(nodes, u)))
    {
      assert 0 <= ClassOf(nodes, u) <= 2 && u !in row;
      PickReady(nodes, unscheduled, ClassOf(nodes, u));
      assert u in PickClass(ClassOf(nodes, u), rA, rO, rN);
    }
  }

  /** Times stay within the schedule's past (helper for the step lemmas). */
  lemma TimesBefore(nodeTime: map<nat, int>, schedule: seq<seq<nat>>)
    requires RowsMatchTimes(nodeTime, schedule)
    ensures forall v :: v in nodeTime ==> nodeTime[v] < |schedule| + 1
  {
    forall v | v in nodeTime ensures nodeTime[v] < |schedule| + 1 {
      assert v in schedule[nodeTime[v] - 1];
    }
  }

  lemma StepKeepsShape(nodes: seq<Node>, budget: Budget, priority: map<nat, int>,
                           nodeTime: map<nat, int>, schedule: seq<seq<nat>>, unscheduled: set<nat>,
                           row: seq<nat>, nodeTime': map<nat, int>)
    requires ScheduleInvariant(nodes, budget, priority, nodeTime, schedule)
    requires unscheduled == OpIds(nodes) - nodeTime.Keys
    requires GoodStep(nodes, budget, priority, nodeTime, unscheduled, row, |schedule| + 1, nodeTime')
    requires row != []
    ensures nodeTime'.Keys <= OpIds(nodes)
    ensures RowsMatchTimes(nodeTime', schedule + [row])
    ensures forall t :: 0 <= t < |schedule + [row]| ==> (schedule + [row])[t] != []
    ensures PrecedenceRespected(nodes, nodeTime')
  {
    var now := |schedule| + 1;
    TimesBefore(nodeTime, schedule);
    StepKeepsOps(nodes, nodeTime, unscheduled, row, now, nodeTime');
    StepKeepsRows(nodeTime, schedule, row, nodeTime');
    StepKeepsRowsNonEmpty(schedule, row);
    StepKeepsPrecedence(nodes, nodeTime, unscheduled, row, now, nodeTime');
  }

  lemma StepKeepsLimits(nodes: seq<Node>, budget: Budget, priority: map<nat, int>,
                           nodeTime: map<nat, int>, schedule: seq<seq<nat>>, unscheduled: set<nat>,
                           row: seq<nat>, nodeTime': map<nat, int>)
    requires ScheduleInvariant(nodes, budget, priority, nodeTime, schedule)
    requires unscheduled == OpIds(nodes) - nodeTime.Keys
    requires GoodStep(nodes, budget, priority, nodeTime, unscheduled, row, |schedule| + 1, nodeTime')
    ensures WithinBudget(nodes, budget, schedule + [row])
    ensures PriorityRespected(nodes, priority, nodeTime')
    ensures BudgetFilled(nodes, budget, nodeTime', schedule + [row])
  {
    var now := |schedule| + 1;
    TimesBefore(nodeTime, schedule);
    StepKeepsBudget(nodes, budget, schedule, row);
    StepKeepsPriority(nodes, priority, nodeTime, row, now, nodeTime');
    StepFillsBudget(nodes, budget, nodeTime, schedule, row, nodeTime');
  }

  /** A greedy step that schedules a nonempty row keeps every property of the
      schedule built so far. */
  lemma StepKeepsInvariant(nodes: seq<Node>, budget: Budget, priority: map<nat, int>,
                           nodeTime: map<nat, int>, schedule: seq<seq<nat>>, unscheduled: set<nat>,
                           row: seq<nat>, nodeTime': map<nat, int>)
    requires ScheduleInvariant(nodes, budget, priority, nodeTime, schedule)
    requires unscheduled == OpIds(nodes) - nodeTime.Keys
    requires GoodStep(nodes, budget, priority, nodeTime, unscheduled, row, |schedule| + 1, nodeTime')
    requires row != []
    ensures ScheduleInvariant(nodes, budget, priority, nodeTime', schedule + [row])
  {
    StepKeepsShape(nodes, budget, priority, nodeTime, schedule, unscheduled, row, nodeTime');
    StepKeepsLimits(nodes, budget, priority, nodeTime, schedule, unscheduled, row, nodeTime');
  }

  // ----------------------------------------------------------------------------
  // Progress: when the loop can stall
  // ----------------------------------------------------------------------------

  /** An element of `s` with the largest rank. */
  lemma {:induction false} MaxRankIn(s: set<nat>, rank: seq<nat>) returns (m: nat)
    requires s != {} && forall u :: u in s ==> u < |rank|
    ensures m in s && forall u :: u in s ==> rank[u] <= rank[m]
    decreases |s|
  {
    var x :| x in s;
    if s == {x} {
      m := x;
    } else {
      var m' := MaxRankIn(s - {x}, rank);
      m := if rank[x] > rank[m'] then x else m';
    }
  }

  /** On an acyclic graph some unscheduled operation is always ready: one of
      largest rank, since its predecessors all rank higher. */
  lemma ReadyExists(nodes: seq<Node>, unscheduled: set<nat>) returns (v: nat)
    requires WellFormed(nodes) && Acyclic(nodes)
    requires unscheduled != {} && forall u :: u in unscheduled ==> IsOp(nodes, u)
    ensures v in unscheduled && IsReady(nodes, unscheduled, v)
  {
    var rank :| IsRanking(nodes, rank);
    v := MaxRankIn(unscheduled, rank);
    forall k | 0 <= k < |nodes[v].preds| ensures nodes[v].preds[k] !in unscheduled {
      var p := nodes[v].preds[k];
      assert v in nodes[p].succs;
      var j :| 0 <= j < |nodes[p].succs| && nodes[p].succs[j] == v;
      assert rank[v] < rank[p];
    }
  }

  /** A node in a row counts towards its own class. */
  lemma {:induction false} InRowCounts(nodes: seq<Node>, row: seq<nat>, v: nat)
    requires v in row
    ensures ClassCount(nodes, row, ClassOf(nodes, v)) >= 1
    decreases |row|
  {
    if row[0] != v {
      assert v in row[1..];
      InRowCounts(nodes, row[1..], v);
    }
  }

  /** A schedule that gives every operation a time used a unit of each
      operation's class, so every class that occurs has a positive limit. */
  lemma CompletedMeansUnits(nodes: seq<Node>, budget: Budget, priority: map<nat, int>,
                            nodeTime: map<nat, int>, schedule: seq<seq<nat>>)
    requires ScheduleInvariant(nodes, budget, priority, nodeTime, schedule)
    requires nodeTime.Keys == OpIds(nodes)
    ensures forall v :: v in OpIds(nodes) ==> budget.Limit(ClassOf(nodes, v)) >= 1
  {
    forall v | v in OpIds(nodes) ensures budget.Limit(ClassOf(nodes, v)) >= 1 {
      var t := nodeTime[v] - 1;
      InRowCounts(nodes, schedule[t], v);
    }
  }

  /** A step that chooses nothing while operations remain shows an operation
      whose class has no units. */
  lemma StallMeansNoUnits(nodes: seq<Node>, budget: Budget, priority: map<nat, int>, unscheduled: set<nat>,
                          chosenAnd: seq<nat>, chosenOr: seq<nat>, chosenNot: seq<nat>)
    requires WellFormed(nodes) && Acyclic(nodes)
    requires unscheduled != {} && unscheduled <= OpIds(nodes)
    requires forall v :: v in unscheduled ==> v in priority
    requires IsTopByPriority(ReadySet(nodes, unscheduled, 0), budget.Limit(0), priority, chosenAnd)
    requires IsTopByPriority(ReadySet(nodes, unscheduled, 1), budget.Limit(1), priority, chosenOr)
    requires IsTopByPriority(ReadySet(nodes, unscheduled, 2), budget.Limit(2), priority, chosenNot)
    requires chosenAnd == [] && chosenOr == [] && chosenNot == []
    ensures exists v :: v in OpIds(nodes) && budget.Limit(ClassOf(nodes, v)) <= 0
  {
    var v := ReadyExists(nodes, unscheduled);
    var c := ClassOf(nodes, v);
    assert v in ReadySet(nodes, unscheduled, c);
    assert |ReadySet(nodes, unscheduled, c)| >= 1;
    assert budget.Limit(c) <= 0;
  }

  /** Number of operation nodes among ids below `n` that have no time yet; the
      measure by which the greedy loop makes progress. */
  function PendingOps(nodes: seq<Node>, nodeTime: map<nat, int>, n: nat): nat
    requires n <= |nodes|
  {
    if n == 0 then 0
    else PendingOps(nodes, nodeTime, n - 1) + (if IsOp(nodes, n - 1) && n - 1 !in nodeTime then 1 else 0)
  }

  /** Giving times never adds pending operations, and giving one to a pending
      operation removes one. */
  lemma {:induction false} PendingDrops(nodes: seq<Node>, nodeTime: map<nat, int>, row: seq<nat>, t: int,
                                        nodeTime': map<nat, int>, n: nat, v: nat)
    requires n <= |nodes|
    requires Extends(nodeTime, row, t, nodeTime')
    ensures PendingOps(nodes, nodeTime', n) <= PendingOps(nodes, nodeTime, n)
    ensures v in row && v < n && IsOp(nodes, v) && v !in nodeTime ==>
      PendingOps(nodes, nodeTime', n) < PendingOps(nodes, nodeTime, n)
  {
    if n > 0 {
      PendingDrops(nodes, nodeTime, row, t, nodeTime', n - 1, v);
    }
  }

  /** With no times given, every operation node is pending. */
  lemma PendingAllOps(nodes: seq<Node>)
    ensures PendingOps(nodes, map[], |nodes|) == |OpIds(nodes)|
  {
    PendingAll(nodes, |nodes|);
    assert (set v: nat | v < |nodes| && IsOp(nodes, v)) == OpIds(nodes);
  }

  lemma {:induction false} PendingAll(nodes: seq<Node>, n: nat)
    requires n <= |nodes|
    ensures PendingOps(nodes, map[], n) == |set v: nat | v < n && IsOp(nodes, v)|
  {
    if n > 0 {
      PendingAll(nodes, n - 1);
      var below := set v: nat | v < n - 1 && IsOp(nodes, v);
      if IsOp(nodes, n - 1) {
        assert n - 1 !in below;
        assert (set v: nat | v < n && IsOp(nodes, v)) == below + {n - 1};
      } else {
        assert (set v: nat | v < n && IsOp(nodes, v)) == below;
      }
    }
  }

  /** What the greedy loop guarantees when it ends, read off its invariant: a
      completed run timed every operation in at most one step per operation,
      and a run stalls exactly when some operation's class has no units. */
  lemma LoopExit(nodes: seq<Node>, budget: Budget, priority: map<nat, int>, nodeTime: map<nat, int>,
                 schedule: seq<seq<nat>>, unscheduled: set<nat>, outcome: Outcome)
    requires ScheduleInvariant(nodes, budget, priority, nodeTime, schedule)
    requires unscheduled == OpIds(nodes) - nodeTime.Keys
    requires |schedule| + PendingOps(nodes, nodeTime, |nodes|) <= PendingOps(nodes, map[], |nodes|)
    requires outcome == Stalled ==> exists v :: v in OpIds(nodes) && budget.Limit(ClassOf(nodes, v)) <= 0
    requires outcome == Completed ==> unscheduled == {}
    ensures outcome == Completed ==> nodeTime.Keys == OpIds(nodes) && |schedule| <= |OpIds(nodes)|
    ensures outcome == Stalled <==> exists v :: v in OpIds(nodes) && budget.Limit(ClassOf(nodes, v)) <= 0
    ensures OpIds(nodes) == {} ==> schedule == []
  {
    PendingAllOps(nodes);
    if outcome == Completed {
      assert nodeTime.Keys == OpIds(nodes) by {
        forall v | v in OpIds(nodes) ensures v in nodeTime {
          assert v !in unscheduled;
        }
      }
      CompletedMeansUnits(nodes, budget, priority, nodeTime, schedule);
    }
  }

  /** Giving the nodes of `a` and then those of `b` the same time gives the nodes
      of `a + b` that time. */
  lemma ExtendsConcat(nt0: map<nat, int>, a: seq<nat>, nt1: map<nat, int>, b: seq<nat>, t: int, nt2: map<nat, int>)
    requires Extends(nt0, a, t, nt1) && Extends(nt1, b, t, nt2)
    requires forall v :: v in b ==> v !in nt0 && v !in a
    ensures Extends(nt0, a + b, t, nt2)
  {
  }

  /** Giving no node a time changes nothing. */
  lemma ExtendsNothing(nodeTime: map<nat, int>, t: int, nodeTime': map<nat, int>)
    requires Extends(nodeTime, [], t, nodeTime')
    ensures nodeTime' == nodeTime
  {
  }

  lemma ElementsConcat(a: seq<nat>, b: seq<nat>)
    ensures Elements(a + b) == Elements(a) + Elements(b)
  {
  }

  /** Scheduling the nodes of a row removes exactly them from the unscheduled
      operations. */
  lemma UnscheduledAfter(nodes: seq<Node>, nodeTime: map<nat, int>, unscheduled: set<nat>,
                         row: seq<nat>, t: int, nodeTime': map<nat, int>)
    requires unscheduled == OpIds(nodes) - nodeTime.Keys
    requires forall v :: v in row ==> v in unscheduled
    requires Extends(nodeTime, row, t, nodeTime')
    ensures unscheduled - Elements(row) == OpIds(nodes) - nodeTime'.Keys
  {
  }

  /** One greedy step from the state (`nodeTime`, `schedule`), with the row
      `row` made of the top nodes of each class and given the next time in
      `nodeTime'`: exactly the row's nodes leave the unscheduled operations; an
      empty row changes nothing and shows an operation whose class has no
      units; a nonempty row keeps every property of the schedule and leaves
      fewer operations pending. */
  lemma StepOutcome(nodes: seq<Node>, budget: Budget, priority: map<nat, int>,
                    nodeTime: map<nat, int>, schedule: seq<seq<nat>>, unscheduled: set<nat>,
                    chosenAnd: seq<nat>, chosenOr: seq<nat>, chosenNot: seq<nat>, row: seq<nat>, nodeTime': map<nat, int>)
    requires WellFormed(nodes) && Acyclic(nodes)
    requires ScheduleInvariant(nodes, budget, priority, nodeTime, schedule)
    requires unscheduled != {} && unscheduled == OpIds(nodes) - nodeTime.Keys
    requires forall v :: v in OpIds(nodes) ==> v in priority
    requires IsTopByPriority(ReadySet(nodes, unscheduled, 0), budget.Limit(0), priority, chosenAnd)
    requires IsTopByPriority(ReadySet(nodes, unscheduled, 1), budget.Limit(1), priority, chosenOr)
    requires IsTopByPriority(ReadySet(nodes, unscheduled, 2), budget.Limit(2), priority, chosenNot)
    requires row == chosenAnd + chosenNot + chosenOr
    requires Extends(nodeTime, row, |schedule| + 1, nodeTime')
    ensures unscheduled - Elements(row) == OpIds(nodes) - nodeTime'.Keys
    ensures GoodStep(nodes, budget, priority, nodeTime, unscheduled, row, |schedule| + 1, nodeTime')
    ensures row == [] ==> nodeTime' == nodeTime
    ensures row == [] ==> exists v :: v in OpIds(nodes) && budget.Limit(ClassOf(nodes, v)) <= 0
    ensures row != [] ==> ScheduleInvariant(nodes, budget, priority, nodeTime', schedule + [row])
    ensures row != [] ==> PendingOps(nodes, nodeTime', |nodes|) < PendingOps(nodes, nodeTime, |nodes|)
  {
    var time := |schedule| + 1;
    TimesBefore(nodeTime, schedule);
    StepChoice(nodes, budget, priority, nodeTime, unscheduled, chosenAnd, chosenOr, chosenNot, time, nodeTime');
    UnscheduledAfter(nodes, nodeTime, unscheduled, row, time, nodeTime');
    if row == [] {
      StepStalls(nodes, budget, priority, nodeTime, unscheduled, chosenAnd, chosenOr, chosenNot, time, nodeTime');
    } else {
      StepAdvances(nodes, budget, priority, nodeTime, schedule, unscheduled, row, nodeTime');
    }
  }

  /** A step that chooses nothing changes no time, and shows an operation whose
      class has no units. */
  lemma StepStalls(nodes: seq<Node>, budget: Budget, priority: map<nat, int>,
                   nodeTime: map<nat, int>, unscheduled: set<nat>,
                   chosenAnd: seq<nat>, chosenOr: seq<nat>, chosenNot: seq<nat>, time: int, nodeTime': map<nat, int>)
    requires WellFormed(nodes) && Acyclic(nodes)
    requires unscheduled != {} && unscheduled <= OpIds(nodes)
    requires forall v :: v in unscheduled ==> v in priority
    requires IsTopByPriority(ReadySet(nodes, unscheduled, 0), budget.Limit(0), priority, chosenAnd)
    requires IsTopByPriority(ReadySet(nodes, unscheduled, 1), budget.Limit(1), priority, chosenOr)
    requires IsTopByPriority(ReadySet(nodes, unscheduled, 2), budget.Limit(2), priority, chosenNot)
    requires chosenAnd + chosenNot + chosenOr == []
    requires Extends(nodeTime, [], time, nodeTime')
    ensures nodeTime' == nodeTime
    ensures exists v :: v in OpIds(nodes) && budget.Limit(ClassOf(nodes, v)) <= 0
  {
    assert chosenAnd == [] && chosenNot == [] && chosenOr == [];
    ExtendsNothing(nodeTime, time, nodeTime');
    StallMeansNoUnits(nodes, budget, priority, unscheduled, chosenAnd, chosenOr, chosenNot);
  }

  /** A step that schedules a nonempty row keeps every property of the schedule
      and leaves fewer operations pending. */
  lemma StepAdvances(nodes: seq<Node>, budget: Budget, priority: map<nat, int>,
                     nodeTime: map<nat, int>, schedule: seq<seq<nat>>, unscheduled: set<nat>,
                     row: seq<nat>, nodeTime': map<nat, int>)
    requires ScheduleInvariant(nodes, budget, priority, nodeTime, schedule)
    requires unscheduled == OpIds(nodes) - nodeTime.Keys
    requires GoodStep(nodes, budget, priority, nodeTime, unscheduled, row, |schedule| + 1, nodeTime')
    requires row != []
    ensures ScheduleInvariant(nodes, budget, priority, nodeTime', schedule + [row])
    ensures PendingOps(nodes, nodeTime', |nodes|) < PendingOps(nodes, nodeTime, |nodes|)
  {
    StepKeepsInvariant(nodes, budget, priority, nodeTime, schedule, unscheduled, row, nodeTime');
    assert row[0] in row;
    PendingDrops(nodes, nodeTime, row, |schedule| + 1, nodeTime', |nodes|, row[0]);
  }

  /** Gives each node of `chosen` the time `time`, appends it to the row under
      construction and removes it from the unscheduled set. */
  method Commit(chosen: seq<nat>, time: int, nodeTime: map<nat, int>, row: seq<nat>, unscheduled: set<nat>)
    returns (nodeTime': map<nat, int>, row': seq<nat>, unscheduled': set<nat>)
    requires forall v :: v in chosen ==> v !in nodeTime
    ensures Extends(nodeTime, chosen, time, nodeTime')
    ensures row' == row + chosen
    ensures unscheduled' == unscheduled - Elements(chosen)
  {
    nodeTime', row', unscheduled' := nodeTime, row, unscheduled;
    for i := 0 to |chosen|
      invariant Extends(nodeTime, chosen[..i], time, nodeTime')
      invariant row' == row + chosen[..i]
      invariant unscheduled' == unscheduled - Elements(chosen[..i])
    {
      assert chosen[..i + 1] == chosen[..i] + [chosen[i]];
      nodeTime' := nodeTime'[chosen[i] := time];
      row' := row' + [chosen[i]];
      unscheduled' := unscheduled' - {chosen[i]};
    }
    assert chosen[..|chosen|] == chosen;
  }

  /** The choices of one step: the ready nodes of each class, read from the
      unscheduled set as it stands before anything is scheduled, each sorted by
      descending priority and cut to the class limit. The three lists are
      distinct unscheduled nodes. */
  method ChooseRow(nodes: seq<Node>, budget: Budget, priority: map<nat, int>, unscheduled: set<nat>)
    returns (chosenAnd: seq<nat>, chosenOr: seq<nat>, chosenNot: seq<nat>)
    requires forall v :: v in unscheduled ==> IsOp(nodes, v) && v in priority
    ensures IsTopByPriority(ReadySet(nodes, unscheduled, 0), budget.Limit(0), priority, chosenAnd)
    ensures IsTopByPriority(ReadySet(nodes, unscheduled, 1), budget.Limit(1), priority, chosenOr)
    ensures IsTopByPriority(ReadySet(nodes, unscheduled, 2), budget.Limit(2), priority, chosenNot)
    ensures Distinct(chosenAnd + chosenNot + chosenOr)
    ensures forall v :: v in chosenAnd + chosenNot + chosenOr ==> v in unscheduled
  {
    var readyAnd, readyOr, readyNot := CollectReady(nodes, unscheduled);
    chosenAnd := SelectByPriority(readyAnd, budget.andLimit, priority);
    chosenNot := SelectByPriority(readyNot, budget.notLimit, priority);
    chosenOr := SelectByPriority(readyOr, budget.orLimit, priority);
    RowMembers(nodes, budget, priority, readyAnd, readyOr, readyNot, chosenAnd, chosenOr, chosenNot);
  }

  /** Commits the three classes in the order AND, NOT, OR: every chosen node
      gets the time `time`, the step's row is their concatenation and they leave
      the unscheduled set. */
  method CommitRow(chosenAnd: seq<nat>, chosenNot: seq<nat>, chosenOr: seq<nat>, time: int,
                   nodeTime: map<nat, int>, unscheduled: set<nat>)
    returns (nodeTime': map<nat, int>, row: seq<nat>, unscheduled': set<nat>)
    requires Distinct(chosenAnd + chosenNot + chosenOr)
    requires forall v :: v in chosenAnd + chosenNot + chosenOr ==> v !in nodeTime
    ensures Extends(nodeTime, row, time, nodeTime')
    ensures row == chosenAnd + chosenNot + chosenOr
    ensures unscheduled' == unscheduled - Elements(row)
  {
    DistinctSplit(chosenAnd + chosenNot, chosenOr);
    DistinctSplit(chosenAnd, chosenNot);
    var nodeTime1, row1, unscheduled1 := Commit(chosenAnd, time, nodeTime, [], unscheduled);
    assert row1 == chosenAnd;
    var nodeTime2, row2, unscheduled2 := Commit(chosenNot, time, nodeTime1, row1, unscheduled1);
    nodeTime', row, unscheduled' := Commit(chosenOr, time, nodeTime2, row2, unscheduled2);
    ExtendsConcat(nodeTime, chosenAnd, nodeTime1, chosenNot, time, nodeTime2);
    ExtendsConcat(nodeTime, chosenAnd + chosenNot, nodeTime2, chosenOr, time, nodeTime');
    ElementsConcat(chosenAnd, chosenNot);
    ElementsConcat(chosenAnd + chosenNot, chosenOr);
  }

  // ----------------------------------------------------------------------------
  // The scheduler object
  // ----------------------------------------------------------------------------

  class Scheduler {
    /** The graph's nodes, read when the scheduler is built. */
    const nodes: seq<Node>
    const limits: Budget
    var latency: int
    var nodeTime: map<nat, int>
    var schedule: seq<seq<nat>>
    var nodePriority: map<nat, int>

    constructor(graph: Blif.Graph, andLimit: int, orLimit: int, notLimit: int)
      ensures nodes == graph.nodes && limits == Budget(andLimit, orLimit, notLimit)
      ensures latency == 0 && nodeTime == map[] && schedule == [] && nodePriority == map[]
    {
      nodes := graph.nodes;
      limits := Budget(andLimit, orLimit, notLimit);
      latency := 0;
      nodeTime := map[];
      schedule := [];
      nodePriority := map[];
    }

    /** `v` has its final priority recorded. */
    ghost predicate Settled(v: nat)
      reads this
    {
      EdgesInRange(nodes) && v < |nodes| && v in nodePriority && nodePriority[v] == Priority(nodes, v)
    }

    /** The memoised depth-first search: returns `v`'s priority and records it,
        and records that of every node it reaches. A visited node that is not
        yet settled is on the current search path and so ranks above `v`. */
    method Dfs(v: nat, visited: set<nat>, ghost rank: seq<nat>) returns (level: int, visited': set<nat>)
      requires WellFormed(nodes) && IsRanking(nodes, rank) && v < |nodes|
      requires forall u :: u in visited ==> u < |nodes| && (Settled(u) || rank[u] > rank[v])
      modifies this`nodePriority
      ensures level == Priority(nodes, v) && Settled(v)
      ensures visited <= visited' && v in visited'
      ensures forall u :: u in visited' ==> u < |nodes| && (Settled(u) || u in visited)
      ensures forall u :: old(Settled(u)) ==> Settled(u)
      decreases rank[v]
    {
      if v in visited {
        return nodePriority[v], visited;
      }
      visited' := visited + {v};
      var maxLevel := 0;
      var succs := nodes[v].succs;
      for i := 0 to |succs|
        invariant maxLevel == MaxHeight(nodes, succs[..i], |nodes|)
        invariant visited <= visited' && v in visited'
        invariant forall u :: u in visited' ==> u < |nodes| && (Settled(u) || rank[u] >= rank[v])
        invariant forall u :: u in visited' ==> Settled(u) || u in visited || u == v
        invariant forall u :: old(Settled(u)) ==> Settled(u)
      {
        assert rank[succs[i]] < rank[v];
        var l, vis := Dfs(succs[i], visited', rank);
        visited' := vis;
        assert succs[..i + 1][..i] == succs[..i];
        if l > maxLevel {
          maxLevel := l;
        }
      }
      assert succs[..|succs|] == succs;
      PriorityUnfold(nodes, rank, v);
      nodePriority := nodePriority[v := maxLevel + 1];
      level := maxLevel + 1;
    }

    /** Records every node's critical-path priority: sinks first, then a search
        from each node not yet visited. */
    method ComputeNodePriorities()
      requires WellFormed(nodes) && Acyclic(nodes)
      modifies this`nodePriority
      ensures forall v: nat :: v < |nodes| ==> v in nodePriority && nodePriority[v] == Priority(nodes, v)
    {
      ghost var rank :| IsRanking(nodes, rank);
      var visited: set<nat> := {};
      for v := 0 to |nodes|
        invariant forall u :: u in visited ==> u < |nodes| && Settled(u)
      {
        if nodes[v].succs == [] {
          PriorityOrdering(nodes, v);
          nodePriority := nodePriority[v := 1];
          visited := visited + {v};
        }
      }
      for v := 0 to |nodes|
        invariant forall u :: u in visited ==> u < |nodes| && Settled(u)
        invariant forall u: nat :: u < v ==> u in visited
      {
        if v !in visited {
          var level;
          level, visited := Dfs(v, visited, rank);
        }
      }
      forall v: nat | v < |nodes| ensures v in nodePriority && nodePriority[v] == Priority(nodes, v) {
        assert v in visited;
        assert Settled(v);
      }
    }

    /** One time step of the greedy loop: collects the operations ready with
        respect to `unscheduled` as it stands, takes the highest-priority ones of
        each class up to the class limit (classes in the order AND, NOT, OR),
        gives them the time `time` and returns them as the step's row. */
    method Step(time: int, unscheduled: set<nat>) returns (row: seq<nat>, unscheduled': set<nat>)
      requires WellFormed(nodes) && Acyclic(nodes)
      requires ScheduleInvariant(nodes, limits, nodePriority, nodeTime, schedule) && time == |schedule| + 1
      requires unscheduled != {} && unscheduled == OpIds(nodes) - nodeTime.Keys
      requires forall v :: v in OpIds(nodes) ==> v in nodePriority
      modifies this`nodeTime, this`schedule
      ensures unscheduled' == OpIds(nodes) - nodeTime.Keys
      ensures row == [] ==> nodeTime == old(nodeTime) && schedule == old(schedule)
      ensures row == [] ==> exists v :: v in OpIds(nodes) && limits.Limit(ClassOf(nodes, v)) <= 0
      ensures row != [] ==> schedule == old(schedule) + [row]
      ensures row != [] ==> PendingOps(nodes, nodeTime, |nodes|) < PendingOps(nodes, old(nodeTime), |nodes|)
      ensures ScheduleInvariant(nodes, limits, old(nodePriority), nodeTime, schedule)
      ensures GoodStep(nodes, limits, old(nodePriority), old(nodeTime), unscheduled, row, time, nodeTime)
    {
      var priority, nodeTime0, schedule0 := nodePriority, nodeTime, schedule;
      var chosenAnd, chosenOr, chosenNot := ChooseRow(nodes, limits, priority, unscheduled);
      var nodeTime1;
      nodeTime1, row, unscheduled' := CommitRow(chosenAnd, chosenNot, chosenOr, time, nodeTime0, unscheduled);
      StepOutcome(nodes, limits, priority, nodeTime0, schedule0, unscheduled, chosenAnd, chosenOr, chosenNot, row, nodeTime1);
      if row != [] {
        schedule := schedule0 + [row];
      }
      nodeTime := nodeTime1;
    }

    /** The initial unscheduled set: every operation node. */
    method OperationNodes() returns (unscheduled: set<nat>)
      ensures unscheduled == OpIds(nodes)
    {
      unscheduled := {};
      for v := 0 to |nodes|
        invariant unscheduled == set u: nat | u < v && GetOperationType(nodes[u]) != -1
      {
        if GetOperationType(nodes[v]) != -1 {
          unscheduled := unscheduled + {v};
        }
      }
    }

    /** The greedy list scheduler. Each step collects the ready operations, takes
        the highest-priority ones of each class up to the class limit (classes in
        the order AND, NOT, OR) and appends them as the next row. A step that
        takes nothing would repeat forever; the model stops there with
        `Stalled`. */
    method HeuristicSchedule() returns (outcome: Outcome)
      requires WellFormed(nodes) && Acyclic(nodes)
      requires nodeTime == map[] && schedule == []
      modifies this
      ensures forall v: nat :: v < |nodes| ==> v in nodePriority && nodePriority[v] == Priority(nodes, v)
      ensures ScheduleInvariant(nodes, limits, nodePriority, nodeTime, schedule)
      ensures latency == |schedule|
      ensures outcome == Completed ==> nodeTime.Keys == OpIds(nodes) && latency <= |OpIds(nodes)|
      ensures outcome == Stalled <==> exists v :: v in OpIds(nodes) && limits.Limit(ClassOf(nodes, v)) <= 0
      ensures OpIds(nodes) == {} ==> latency == 0 && schedule == []
    {
      ComputeNodePriorities();
      outcome, latency := StepLoop();
    }

    /** The time-step loop of `HeuristicSchedule`, once the priorities are known. */
    method StepLoop() returns (outcome: Outcome, steps: int)
      requires WellFormed(nodes) && Acyclic(nodes)
      requires nodeTime == map[] && schedule == []
      requires forall v :: v in OpIds(nodes) ==> v in nodePriority
      modifies this`nodeTime, this`schedule
      ensures ScheduleInvariant(nodes, limits, nodePriority, nodeTime, schedule)
      ensures steps == |schedule|
      ensures outcome == Completed ==> nodeTime.Keys == OpIds(nodes) && steps <= |OpIds(nodes)|
      ensures outcome == Stalled <==> exists v :: v in OpIds(nodes) && limits.Limit(ClassOf(nodes, v)) <= 0
      ensures OpIds(nodes) == {} ==> steps == 0 && schedule == []
    {
      var unscheduled := OperationNodes();
      var currentTime := 1;
      outcome := Completed;
      while outcome == Completed && unscheduled != {}
        invariant unscheduled == OpIds(nodes) - nodeTime.Keys
        invariant currentTime == |schedule| + 1
        invariant ScheduleInvariant(nodes, limits, nodePriority, nodeTime, schedule)
        invariant |schedule| + PendingOps(nodes, nodeTime, |nodes|) <= PendingOps(nodes, map[], |nodes|)
        invariant outcome == Stalled ==> exists v :: v in OpIds(nodes) && limits.Limit(ClassOf(nodes, v)) <= 0
        decreases PendingOps(nodes, nodeTime, |nodes|), if outcome == Completed then 1 else 0
      {
        var row;
        row, unscheduled := Step(currentTime, unscheduled);
        if row == [] {
          outcome := Stalled;
        } else {
          currentTime := currentTime + 1;
        }
      }
      steps := currentTime - 1;
      LoopExit(nodes, limits, nodePriority, nodeTime, schedule, unscheduled, outcome);
    }

    /** The time step of `v`, or -1 when `v` has none. */
    function GetNodeTime(v: nat): (t: int)
      reads this
      ensures RowsMatchTimes(nodeTime, schedule) ==>
        (t == -1 <==> forall r :: 0 <= r < |schedule| ==> v !in schedule[r])
      ensures RowsMatchTimes(nodeTime, schedule) && t != -1 ==> 1 <= t <= |schedule| && v in schedule[t - 1]
    {
      if v in nodeTime then nodeTime[v] else -1
    }
  }
}
