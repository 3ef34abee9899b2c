/**
 * One tick of the cleanup loop in `main`: list the cluster's nodes, and for
 * each of them in list order run the readiness check and the instance
 * check, then delete the node (or, in dry-run mode, only say so).
 *
 * The cluster's node directory is a class whose node sequence the deletes
 * change in place. What the outside world answers is given as inputs: the
 * error the list call returns (if any), the DescribeInstances response for
 * each instance id, and the error the delete call returns for each node
 * name (if any).
 */
module Cleanup {
  import opened Common
  import opened Readiness
  import opened InstanceState

  /** A cluster node, reduced to the fields the loop reads. */
  datatype Node = Node(name: string, externalId: string, conditions: seq<NodeCondition>)

  /** What happened to one node during a tick (one per log line of the loop). */
  datatype Outcome =
    | ReadyCheckFailed(err: Error)
    | SkippedReady
    | RunningCheckFailed(err: Error)
    | SkippedRunning
    | WouldDelete
    | DeleteFailed(err: Error)
    | Deleted

  /** What a tick did: nothing, when the list call failed, or one outcome per listed node. */
  datatype TickReport =
    | ListFailed(err: Error)
    | Processed(outcomes: seq<Outcome>)

  /** A delete call was made for the node. */
  predicate DeleteIssued(o: Outcome) {
    o.DeleteFailed? || o.Deleted?
  }

  ghost predicate UniqueNames(s: seq<Node>) {
    forall i, j :: 0 <= i < j < |s| ==> s[i].name != s[j].name
  }

  /** The decision the loop body takes for one node. */
  function NodeOutcome(n: Node, dryRun: bool, describe: string -> DescribeResponse,
                       deleteResult: string -> Option<Error>): Outcome
  {
    var ready := ReadyVerdict(n.conditions);
    if ready.err.Some? then ReadyCheckFailed(ready.err.value)
    else if ready.value then SkippedReady
    else
      var running := RunningVerdict(describe(n.externalId), n.externalId);
      if running.err.Some? then RunningCheckFailed(running.err.value)
      else if running.value then SkippedRunning
      else if dryRun then WouldDelete
      else match deleteResult(n.name)
        case Some(e) => DeleteFailed(e)
        case None => Deleted
  }

  /** The outcomes of a tick over the listed nodes, in list order. */
  function TickOutcomes(items: seq<Node>, dryRun: bool, describe: string -> DescribeResponse,
                        deleteResult: string -> Option<Error>): (r: seq<Outcome>)
  {
    seq(|items|, k requires 0 <= k < |items| => NodeOutcome(items[k], dryRun, describe, deleteResult))
  }

  /** The outcomes of one more listed node. */
  lemma TickOutcomesExtend(items: seq<Node>, i: int, dryRun: bool, describe: string -> DescribeResponse,
                           deleteResult: string -> Option<Error>)
    requires 0 <= i < |items|
    ensures TickOutcomes(items[..i + 1], dryRun, describe, deleteResult) ==
      TickOutcomes(items[..i], dryRun, describe, deleteResult) + [NodeOutcome(items[i], dryRun, describe, deleteResult)]
  {
    assert items[..i + 1] == items[..i] + [items[i]];
    OutcomesConcatenate(items[..i], [items[i]], dryRun, describe, deleteResult);
  }

  /** The names of the listed nodes whose delete call succeeded. */
  function DeletedNames(items: seq<Node>, dryRun: bool, describe: string -> DescribeResponse,
                        deleteResult: string -> Option<Error>): set<string>
  {
    set k | 0 <= k < |items| && NodeOutcome(items[k], dryRun, describe, deleteResult).Deleted? :: items[k].name
  }

  /** The nodes of `s` whose names are not in `names`, in their original order. */
  function Without(s: seq<Node>, names: set<string>): (r: seq<Node>)
    ensures forall x :: x in r <==> x in s && x.name !in names
  {
    if |s| == 0 then []
    else if s[0].name in names then Without(s[1..], names)
    else [s[0]] + Without(s[1..], names)
  }

  lemma {:induction false} WithoutUnion(s: seq<Node>, a: set<string>, b: set<string>)
    ensures Without(Without(s, a), b) == Without(s, a + b)
  {
    if |s| > 0 {
      WithoutUnion(s[1..], a, b);
      if s[0].name !in a {
        assert ([s[0]] + Without(s[1..], a))[1..] == Without(s[1..], a);
      }
    }
  }

  lemma {:induction false} WithoutNothing(s: seq<Node>)
    ensures Without(s, {}) == s
  {
    if |s| > 0 {
      WithoutNothing(s[1..]);
    }
  }

  lemma {:induction false} WithoutKeepsUnique(s: seq<Node>, names: set<string>)
    requires UniqueNames(s)
    ensures UniqueNames(Without(s, names))
  {
    if |s| > 0 {
      assert UniqueNames(s[1..]) by {
        forall i, j | 0 <= i < j < |s[1..]| ensures s[1..][i].name != s[1..][j].name {
          assert s[1..][i] == s[i + 1] && s[1..][j] == s[j + 1];
        }
      }
      WithoutKeepsUnique(s[1..], names);
      var rest := Without(s[1..], names);
      if s[0].name !in names {
        forall x | x in rest ensures x.name != s[0].name {
          var k :| 0 <= k < |s[1..]| && s[1..][k] == x;
          assert s[k + 1] == x;
        }
        var r := [s[0]] + rest;
        forall i, j | 0 <= i < j < |r| ensures r[i].name != r[j].name {
          assert r[j] == rest[j - 1];
          if i > 0 {
            assert r[i] == rest[i - 1];
          } else {
            assert rest[j - 1] in rest;
          }
        }
      }
    }
  }

  /** The deleted names of one more listed node. */
  lemma DeletedNamesExtend(items: seq<Node>, i: int, dryRun: bool, describe: string -> DescribeResponse,
                           deleteResult: string -> Option<Error>)
    requires 0 <= i < |items|
    ensures DeletedNames(items[..i + 1], dryRun, describe, deleteResult) ==
      DeletedNames(items[..i], dryRun, describe, deleteResult) +
      (if NodeOutcome(items[i], dryRun, describe, deleteResult).Deleted? then {items[i].name} else {})
  {
    var before := items[..i];
    var after := items[..i + 1];
    assert forall k :: 0 <= k < i ==> after[k] == before[k];
    assert after[i] == items[i];
  }

  /** How the directory after `i + 1` nodes follows from the directory after `i`. */
  lemma DirectoryStep(items: seq<Node>, i: int, dryRun: bool, describe: string -> DescribeResponse,
                      deleteResult: string -> Option<Error>)
    requires 0 <= i < |items|
    ensures Without(items, DeletedNames(items[..i + 1], dryRun, describe, deleteResult)) ==
      var done := Without(items, DeletedNames(items[..i], dryRun, describe, deleteResult));
      if NodeOutcome(items[i], dryRun, describe, deleteResult).Deleted? then Without(done, {items[i].name}) else done
  {
    var before := DeletedNames(items[..i], dryRun, describe, deleteResult);
    var after := DeletedNames(items[..i + 1], dryRun, describe, deleteResult);
    DeletedNamesExtend(items, i, dryRun, describe, deleteResult);
    if NodeOutcome(items[i], dryRun, describe, deleteResult).Deleted? {
      assert after == before + {items[i].name};
      WithoutUnion(items, before, {items[i].name});
    } else {
      assert after == before;
    }
  }

  /**
   * Safety: a delete call is made for a node exactly when its readiness check
   * and its instance check both answered `false` without error and dry-run is off.
   */
  lemma DeleteOnlyWhenBothChecksFalse(n: Node, dryRun: bool, describe: string -> DescribeResponse,
                                      deleteResult: string -> Option<Error>)
    ensures DeleteIssued(NodeOutcome(n, dryRun, describe, deleteResult)) <==>
      ReadyVerdict(n.conditions) == Reply(false, None) &&
      RunningVerdict(describe(n.externalId), n.externalId) == Reply(false, None) &&
      !dryRun
  {
  }

  /**
   * A node the readiness check skips never reaches the instance check: its
   * outcome does not depend on what the provider would answer.
   */
  lemma NoQueryAfterReadySkip(n: Node, dryRun: bool, d1: string -> DescribeResponse,
                              d2: string -> DescribeResponse, deleteResult: string -> Option<Error>)
    requires ReadyVerdict(n.conditions) != Reply(false, None)
    ensures NodeOutcome(n, dryRun, d1, deleteResult) == NodeOutcome(n, dryRun, d2, deleteResult)
    ensures !DeleteIssued(NodeOutcome(n, dryRun, d1, deleteResult))
  {
  }

  /** In dry-run mode a tick deletes nothing. */
  lemma DryRunDeletesNothing(items: seq<Node>, describe: string -> DescribeResponse,
                             deleteResult: string -> Option<Error>)
    ensures forall k :: 0 <= k < |items| ==> !DeleteIssued(TickOutcomes(items, true, describe, deleteResult)[k])
    ensures DeletedNames(items, true, describe, deleteResult) == {}
  {
  }

  /**
   * Nodes are handled one by one: a tick over two lists back to back gives
   * the outcomes of the first list followed by those of the second, so what
   * happens to one node never stops or changes the handling of later ones.
   */
  lemma OutcomesConcatenate(a: seq<Node>, b: seq<Node>, dryRun: bool, describe: string -> DescribeResponse,
                            deleteResult: string -> Option<Error>)
    ensures TickOutcomes(a + b, dryRun, describe, deleteResult) ==
      TickOutcomes(a, dryRun, describe, deleteResult) + TickOutcomes(b, dryRun, describe, deleteResult)
  {
  }

  /**
   * A node that a tick removes from the directory was stale: both checks
   * answered `false` without error, dry-run was off and its delete succeeded.
   */
  lemma RemovedNodesWereStale(items: seq<Node>, dryRun: bool, describe: string -> DescribeResponse,
                              deleteResult: string -> Option<Error>, x: Node)
    requires UniqueNames(items)
    requires x in items && x !in Without(items, DeletedNames(items, dryRun, describe, deleteResult))
    ensures !dryRun && deleteResult(x.name).None?
    ensures ReadyVerdict(x.conditions) == Reply(false, None)
    ensures RunningVerdict(describe(x.externalId), x.externalId) == Reply(false, None)
  {
    var names := DeletedNames(items, dryRun, describe, deleteResult);
    assert x.name in names;
    var k :| 0 <= k < |items| && NodeOutcome(items[k], dryRun, describe, deleteResult).Deleted? && items[k].name == x.name;
    var m :| 0 <= m < |items| && items[m] == x;
    assert k == m;
    assert NodeOutcome(x, dryRun, describe, deleteResult).Deleted?;
    DeleteOnlyWhenBothChecksFalse(x, dryRun, describe, deleteResult);
  }

  /** A node whose outcome is not Deleted stays in the directory. */
  lemma KeptNodesRemain(items: seq<Node>, dryRun: bool, describe: string -> DescribeResponse,
                        deleteResult: string -> Option<Error>, x: Node)
    requires UniqueNames(items)
    requires x in items && !NodeOutcome(x, dryRun, describe, deleteResult).Deleted?
    ensures x in Without(items, DeletedNames(items, dryRun, describe, deleteResult))
  {
  }

  /**
   * A second tick with the same answers from the outside world deletes
   * nothing more: what the first tick left behind is not deleted again.
   */
  lemma TickIdempotent(items: seq<Node>, dryRun: bool, describe: string -> DescribeResponse,
                       deleteResult: string -> Option<Error>)
    requires UniqueNames(items)
    ensures var rest := Without(items, DeletedNames(items, dryRun, describe, deleteResult));
            DeletedNames(rest, dryRun, describe, deleteResult) == {} &&
            Without(rest, DeletedNames(rest, dryRun, describe, deleteResult)) == rest
  {
    var names := DeletedNames(items, dryRun, describe, deleteResult);
    var rest := Without(items, names);
    forall k | 0 <= k < |rest| ensures !NodeOutcome(rest[k], dryRun, describe, deleteResult).Deleted? {
      var x := rest[k];
      assert x in rest;
      var m :| 0 <= m < |items| && items[m] == x;
      assert x.name !in names;
    }
    assert DeletedNames(rest, dryRun, describe, deleteResult) == {};
    WithoutNothing(rest);
  }

  /**
   * A node whose first "Ready" condition has status False is skipped by the
   * readiness check (the check answers `true` for it), whatever the provider
   * would say about its instance.
   */
  lemma StatusFalseNodeSkipped(n: Node, k: int, dryRun: bool, describe: string -> DescribeResponse,
                               deleteResult: string -> Option<Error>)
    requires FirstReadyAt(n.conditions, k) && n.conditions[k].status == ConditionFalse
    ensures NodeOutcome(n, dryRun, describe, deleteResult) == SkippedReady
  {
    ReadyVerdictAtFirst(n.conditions, k);
  }

  /**
   * A node whose first "Ready" condition has status True or Unknown, and
   * whose instance id comes back with no reservations, is reported as
   * would-be-deleted in dry-run mode and otherwise gets its delete call.
   */
  lemma NotReadyNodeWithoutReservationsDeleted(n: Node, k: int, dryRun: bool,
                                               describe: string -> DescribeResponse,
                                               deleteResult: string -> Option<Error>)
    requires FirstReadyAt(n.conditions, k) && n.conditions[k].status != ConditionFalse
    requires describe(n.externalId) == Described([])
    ensures NodeOutcome(n, dryRun, describe, deleteResult) ==
      if dryRun then WouldDelete
      else if deleteResult(n.name).Some? then DeleteFailed(deleteResult(n.name).value)
      else Deleted
  {
    ReadyVerdictAtFirst(n.conditions, k);
  }

  /**
   * A node that passes the readiness check, and whose first instance with
   * its id is running, is skipped.
   */
  lemma RunningInstanceSkipped(n: Node, rs: seq<Reservation>, r: int, i: int, dryRun: bool,
                               describe: string -> DescribeResponse,
                               deleteResult: string -> Option<Error>)
    requires ReadyVerdict(n.conditions) == Reply(false, None)
    requires describe(n.externalId) == Described(rs)
    requires FirstMatchAt(rs, n.externalId, r, i) && rs[r].instances[i].state == Running
    ensures NodeOutcome(n, dryRun, describe, deleteResult) == SkippedRunning
  {
    FirstMatchDecides(rs, n.externalId, r, i);
  }

  /** A node whose instance query fails is skipped with that error, never deleted. */
  lemma QueryFailureKeepsNode(n: Node, e: Error, dryRun: bool, describe: string -> DescribeResponse,
                              deleteResult: string -> Option<Error>)
    requires ReadyVerdict(n.conditions) == Reply(false, None)
    requires describe(n.externalId) == DescribeFailed(e)
    ensures NodeOutcome(n, dryRun, describe, deleteResult) == RunningCheckFailed(e)
  {
  }

  /** The cluster's node directory, changed in place by delete calls. */
  class NodeDirectory {
    var nodes: seq<Node>

    /** Node names are unique in the cluster. */
    ghost predicate Valid()
      reads this
    {
      UniqueNames(nodes)
    }

    constructor (initial: seq<Node>)
      requires UniqueNames(initial)
      ensures Valid() && nodes == initial
    {
      nodes := initial;
    }

    /** The delete call for one node name: on success the node leaves the directory. */
    method Delete(name: string, deleteResult: string -> Option<Error>) returns (err: Option<Error>)
      requires Valid()
      modifies this
      ensures Valid()
      ensures err == deleteResult(name)
      ensures nodes == if err.None? then Without(old(nodes), {name}) else old(nodes)
    {
      err := deleteResult(name);
      if err.None? {
        WithoutKeepsUnique(nodes, {name});
        nodes := Without(nodes, {name});
      }
    }

    /** The loop body for one listed node: the two checks, then the delete call. */
    method HandleNode(node: Node, dryRun: bool, describe: string -> DescribeResponse,
                      deleteResult: string -> Option<Error>) returns (outcome: Outcome)
      requires Valid()
      modifies this
      ensures Valid()
      ensures outcome == NodeOutcome(node, dryRun, describe, deleteResult)
      ensures nodes == if outcome.Deleted? then Without(old(nodes), {node.name}) else old(nodes)
    {
      var ready, readyErr := IsReady(node.conditions);
      if readyErr.Some? {
        return ReadyCheckFailed(readyErr.value);
      }
      if ready {
        return SkippedReady;
      }
      var running, runningErr := IsRunning(describe(node.externalId), node.externalId);
      if runningErr.Some? {
        return RunningCheckFailed(runningErr.value);
      }
      if running {
        return SkippedRunning;
      }
      if dryRun {
        return WouldDelete;
      }
      var deleteErr := Delete(node.name, deleteResult);
      if deleteErr.Some? {
        return DeleteFailed(deleteErr.value);
      }
      return Deleted;
    }

    /** One tick of the cleanup loop. */
    method Tick(dryRun: bool, listErr: Option<Error>, describe: string -> DescribeResponse,
                deleteResult: string -> Option<Error>) returns (report: TickReport)
      requires Valid()
      modifies this
      ensures Valid()
      ensures listErr.Some? ==> report == ListFailed(listErr.value) && nodes == old(nodes)
      ensures listErr.None? ==> report == Processed(TickOutcomes(old(nodes), dryRun, describe, deleteResult))
      ensures listErr.None? ==> nodes == Without(old(nodes), DeletedNames(old(nodes), dryRun, describe, deleteResult))
      ensures dryRun ==> nodes == old(nodes)
    {
      if listErr.Some? {
        return ListFailed(listErr.value);
      }
      var items := nodes;
      var outcomes: seq<Outcome> := [];
      WithoutNothing(items);
      assert DeletedNames(items[..0], dryRun, describe, deleteResult) == {};
      for i := 0 to |items|
        invariant Valid()
        invariant outcomes == TickOutcomes(items[..i], dryRun, describe, deleteResult)
        invariant nodes == Without(items, DeletedNames(items[..i], dryRun, describe, deleteResult))
      {
        DirectoryStep(items, i, dryRun, describe, deleteResult);
        TickOutcomesExtend(items, i, dryRun, describe, deleteResult);
        var outcome := HandleNode(items[i], dryRun, describe, deleteResult);
        outcomes := outcomes + [outcome];
      }
      assert items[..|items|] == items;
      if dryRun {
        DryRunDeletesNothing(items, describe, deleteResult);
        WithoutNothing(items);
      }
      return Processed(outcomes);
    }
  }
}
