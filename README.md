# k8s-aws-node-cleanup, modelled in Dafny

The program is a small controller that runs inside a Kubernetes cluster on
AWS. On every tick it lists the cluster's nodes. For each node, in list order,
it runs two checks:

- `isReady` reads the node's status conditions.
- `isRunning` asks EC2 `DescribeInstances` about the node's external instance id.

When both checks answer `false` without error, it deletes the node object.
In dry-run mode it only logs that it would have done so. Errors are logged,
and the loop goes on with the next node. A failed list call skips the whole
tick.

The model has four modules:

- `Common` (`common.dfy`) holds the error type, Go's `(bool, error)` pair as
  `Reply`, and the "first element that passes a test" scan that both checks use.
- `Readiness` (`readiness.dfy`) models `isReady`. `ReadyVerdict` is the
  specification function. `IsReady` is the loop, proved equal to it. Lemmas
  state what the verdict means.
- `InstanceState` (`instance_state.dfy`) models `isRunning` over an abstract
  `DescribeInstances` response. The response is either the call's error or a
  sequence of reservations, each a sequence of `{id, state}` instances.
  `RunningVerdict` is the specification function. `IsRunning` is the nested
  loop, proved equal to it.
- `Cleanup` (`cleanup.dfy`) models one tick of `main`'s loop.
  `NodeOutcome` is the decision for one node. `TickOutcomes` is the decision
  for a whole list. The class `NodeDirectory` is the cluster's node list.
  Its `Tick` method walks a snapshot of the list and deletes nodes from the
  directory in place.

The outside world enters as parameters. The list call's error is `listErr`.
The EC2 answer for each instance id comes from `describe`. The delete call's
error for each node name comes from `deleteResult`.

`isReady` is modelled as written. It answers `true` when the "Ready"
condition's status is `False`, and `false` when the status is `True` or
`Unknown`. This is the opposite of what its name and its comment at
`main.go:95` suggest, and of the comment at `main.go:58`, which says ready
nodes are the ones not to clean up. With the skip at `main.go:65-67`, nodes
reporting Ready=False are skipped. Nodes reporting Ready=True or Unknown go
on to the instance check, and are deleted when their instance is not
running. The model follows the code, and `StatusFalseNodeSkipped` and
`NotReadyNodeWithoutReservationsDeleted` state what the code does.

## Model

| member | source | states |
|---|---|---|
| `Common.FirstWhere` | workspace/src/github.com/previousnext/k8s-aws-node-cleanup/main.go:97-100 | the position found is the first one passing the test; None means no element passes |
| `Readiness.IsReady` | workspace/src/github.com/previousnext/k8s-aws-node-cleanup/main.go:96-110 | the early-return scan returns exactly the `isReady` verdict for every condition list |
| `Readiness.ReadyVerdictAtFirst` | workspace/src/github.com/previousnext/k8s-aws-node-cleanup/main.go:97-106 | when the first "Ready" condition is at position k, the answer is `(status == False, nil)` for that condition |
| `Readiness.ReadyTrueIffStatusFalse` | workspace/src/github.com/previousnext/k8s-aws-node-cleanup/main.go:102-103 | `(true, nil)` if and only if the first "Ready" condition has status False |
| `Readiness.ReadyFalseIffOtherStatus` | workspace/src/github.com/previousnext/k8s-aws-node-cleanup/main.go:102-106 | `(false, nil)` if and only if the first "Ready" condition has status True or Unknown |
| `Readiness.ReadyErrorIffMissing` | workspace/src/github.com/previousnext/k8s-aws-node-cleanup/main.go:109 | an error if and only if no condition has type "Ready"; the error comes with `false` |
| `Readiness.ReadyVerdictByReadyConditions` | workspace/src/github.com/previousnext/k8s-aws-node-cleanup/main.go:97-109 | the verdict depends only on the "Ready" conditions, in order, and only on the first of them |
| `Readiness.IgnoresOtherTypes` | workspace/src/github.com/previousnext/k8s-aws-node-cleanup/main.go:98-100 | inserting a condition of another type anywhere leaves the verdict unchanged |
| `Readiness.OnlyFirstReadyConsulted` | workspace/src/github.com/previousnext/k8s-aws-node-cleanup/main.go:102-106 | once a "Ready" condition occurs, conditions after it do not change the verdict |
| `InstanceState.FirstMatch` | workspace/src/github.com/previousnext/k8s-aws-node-cleanup/main.go:128-132 | the place found is the first instance with the id, reservations in order then instances in order; None means no instance has it |
| `InstanceState.IsRunning` | workspace/src/github.com/previousnext/k8s-aws-node-cleanup/main.go:113-144 | the nested scan returns exactly the `isRunning` verdict for every response and id |
| `InstanceState.RunningErrorIff` | workspace/src/github.com/previousnext/k8s-aws-node-cleanup/main.go:119-143 | an error if and only if the query failed or there are reservations but none holds the id; a query error is passed back unchanged with `false`; a missing id gives the not-found error |
| `InstanceState.NoReservationsNotRunning` | workspace/src/github.com/previousnext/k8s-aws-node-cleanup/main.go:124-126 | zero reservations give `(false, nil)` |
| `InstanceState.FirstMatchDecides` | workspace/src/github.com/previousnext/k8s-aws-node-cleanup/main.go:128-139 | the first instance with the id decides: state running gives `(true, nil)`, any other state `(false, nil)` |
| `InstanceState.IdPresentDecidedByFirst` | workspace/src/github.com/previousnext/k8s-aws-node-cleanup/main.go:128-143 | when any instance has the id there is no error, and the answer is that of the first such instance |
| `Cleanup.DeleteOnlyWhenBothChecksFalse` | workspace/src/github.com/previousnext/k8s-aws-node-cleanup/main.go:59-87 | a delete call is made if and only if both checks returned `(false, nil)` and dry-run is off |
| `Cleanup.NoQueryAfterReadySkip` | workspace/src/github.com/previousnext/k8s-aws-node-cleanup/main.go:59-68 | a node the readiness check skips gets no delete, and its outcome does not depend on the EC2 answer |
| `Cleanup.DryRunDeletesNothing` | workspace/src/github.com/previousnext/k8s-aws-node-cleanup/main.go:82-85 | in dry-run mode no node of a tick gets a delete call, and no node is removed |
| `Cleanup.OutcomesConcatenate` | workspace/src/github.com/previousnext/k8s-aws-node-cleanup/main.go:57-91 | the tick over two lists back to back is the first list's outcomes followed by the second's, so no node's result stops or changes later nodes |
| `Cleanup.RemovedNodesWereStale` | workspace/src/github.com/previousnext/k8s-aws-node-cleanup/main.go:59-90 | a node a tick removes passed both checks with `(false, nil)`, dry-run was off and its delete succeeded |
| `Cleanup.KeptNodesRemain` | workspace/src/github.com/previousnext/k8s-aws-node-cleanup/main.go:59-90 | a node whose outcome is not a successful delete stays in the directory, including after a failed delete |
| `Cleanup.TickIdempotent` | workspace/src/github.com/previousnext/k8s-aws-node-cleanup/main.go:51-91 | a second tick with the same answers deletes nothing more and leaves the directory unchanged |
| `Cleanup.StatusFalseNodeSkipped` | workspace/src/github.com/previousnext/k8s-aws-node-cleanup/main.go:59-68 | any node whose first Ready condition has status False is skipped as "ready", whatever EC2 says |
| `Cleanup.NotReadyNodeWithoutReservationsDeleted` | workspace/src/github.com/previousnext/k8s-aws-node-cleanup/main.go:71-90 | any node whose first Ready condition has status True or Unknown and whose instance has no reservations is reported as would-delete in dry-run mode; otherwise its delete call is made, giving Deleted or DeleteFailed with the call's error |
| `Cleanup.RunningInstanceSkipped` | workspace/src/github.com/previousnext/k8s-aws-node-cleanup/main.go:77-80 | any node that passes the readiness check and whose first matching instance is running is skipped |
| `Cleanup.QueryFailureKeepsNode` | workspace/src/github.com/previousnext/k8s-aws-node-cleanup/main.go:71-75 | a failed EC2 query skips the node with that error, never a delete |
| `Cleanup.NodeDirectory.Delete` | workspace/src/github.com/previousnext/k8s-aws-node-cleanup/main.go:87-90 | the delete call's error is returned; on success exactly that name leaves the directory, on failure nothing changes |
| `Cleanup.NodeDirectory.HandleNode` | workspace/src/github.com/previousnext/k8s-aws-node-cleanup/main.go:59-90 | one loop iteration yields the node's decided outcome, and the directory loses the node only when its delete succeeded |
| `Cleanup.NodeDirectory.Tick` | workspace/src/github.com/previousnext/k8s-aws-node-cleanup/main.go:51-91 | a failed list changes nothing; otherwise one outcome per listed node in list order, and the directory afterwards is the old list minus exactly the successfully deleted names; dry-run changes nothing |

## Left out

- Command-line flag parsing (`--frequency`, `--dry`): the dry-run flag is a parameter of `Tick`, and the frequency is not modelled.
- EC2 metadata region lookup, AWS session creation, in-cluster config, client construction and the panics they raise: these are bootstrapping and foreign calls.
- The timer and the endless `for { <-limiter ... }` loop: the model covers a single tick. Each tick is independent of the last, so repeated ticks are repeated calls of `Tick`.
- The network and SDK behaviour of `DescribeInstances`, `Nodes().List` and `Nodes().Delete`: they are replaced by the inputs `describe`, `listErr` and `deleteResult`. The list call returns the directory's current nodes.
- `Cleanup.NodeDirectory.Delete`: deleting a name that is not in the directory is modelled as whatever `deleteResult` returns, with no change to the directory. The API's not-found error is folded into that input.
- Log message text: each node's log line is reduced to an `Outcome` tag.
- Nil-pointer dereferences of `InstanceId` and `State.Name`: instance records always have an id and a state.
- Error message text: `fmt.Errorf` strings are reduced to the `ConditionNotFound` and `InstanceNotFound` error values, which carry the condition type or the instance id.
- The cluster's guarantee that node names are unique is taken as the invariant `Valid()` of `NodeDirectory`. It is not something the loop checks.
