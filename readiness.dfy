/**
 * The node readiness check of the cleanup loop (`isReady` in main.go).
 *
 * The function scans a node's conditions for the first one of type
 * "Ready" and turns its status into a boolean. As written, it answers
 * `true` when that status is False and `false` for True or Unknown, the
 * opposite of what its name suggests; this module states that behaviour.
 */
module Readiness {
  import opened Common

  /** The three values of a node condition's status in the cluster API. */
  datatype ConditionStatus = ConditionTrue | ConditionFalse | ConditionUnknown

  /** One entry of a node's status conditions. */
  datatype NodeCondition = NodeCondition(condType: string, status: ConditionStatus)

  /** The condition type that reports overall node health. */
  const NodeReady: string := "Ready"

  predicate IsReadyType(c: NodeCondition) {
    c.condType == NodeReady
  }

  /** `k` is the position of the first condition of type "Ready". */
  predicate FirstReadyAt(cs: seq<NodeCondition>, k: int) {
    0 <= k < |cs| && IsReadyType(cs[k]) && forall j :: 0 <= j < k ==> !IsReadyType(cs[j])
  }

  /** The conditions of type "Ready", in their original order. */
  function ReadyConditions(cs: seq<NodeCondition>): (r: seq<NodeCondition>)
    ensures forall k :: 0 <= k < |r| ==> IsReadyType(r[k])
  {
    if |cs| == 0 then []
    else if IsReadyType(cs[0]) then [cs[0]] + ReadyConditions(cs[1..])
    else ReadyConditions(cs[1..])
  }

  /** What `isReady` returns for a condition list. */
  function ReadyVerdict(cs: seq<NodeCondition>): Reply {
    match FirstWhere(cs, IsReadyType)
    case None => Reply(false, Some(ConditionNotFound(NodeReady)))
    case Some(k) => Reply(cs[k].status == ConditionFalse, None)
  }

  /** The scan of `isReady`: skip other types, decide on the first "Ready" condition. */
  method IsReady(conditions: seq<NodeCondition>) returns (ready: bool, err: Option<Error>)
    ensures Reply(ready, err) == ReadyVerdict(conditions)
  {
    for i := 0 to |conditions|
      invariant forall j :: 0 <= j < i ==> !IsReadyType(conditions[j])
    {
      if conditions[i].condType != NodeReady {
        continue;
      }
      if conditions[i].status == ConditionFalse {
        return true, None;
      }
      return false, None;
    }
    return false, Some(ConditionNotFound(NodeReady));
  }

  lemma FirstReadyUnique(cs: seq<NodeCondition>, k1: int, k2: int)
    requires FirstReadyAt(cs, k1) && FirstReadyAt(cs, k2)
    ensures k1 == k2
  {
  }

  /** The verdict is decided by the first "Ready" condition whenever there is one. */
  lemma ReadyVerdictAtFirst(cs: seq<NodeCondition>, k: int)
    requires FirstReadyAt(cs, k)
    ensures ReadyVerdict(cs) == Reply(cs[k].status == ConditionFalse, None)
  {
    var r := FirstWhere(cs, IsReadyType);
    if r.Some? {
      FirstReadyUnique(cs, k, r.value);
    }
  }

  /** `(true, nil)` exactly when the first "Ready" condition has status False. */
  lemma ReadyTrueIffStatusFalse(cs: seq<NodeCondition>)
    ensures ReadyVerdict(cs) == Reply(true, None)
        <==> exists k :: FirstReadyAt(cs, k) && cs[k].status == ConditionFalse
  {
    var r := FirstWhere(cs, IsReadyType);
    if r.Some? {
      assert FirstReadyAt(cs, r.value);
      forall k | FirstReadyAt(cs, k) ensures k == r.value {
        FirstReadyUnique(cs, k, r.value);
      }
    }
  }

  /** `(false, nil)` exactly when the first "Ready" condition has status True or Unknown. */
  lemma ReadyFalseIffOtherStatus(cs: seq<NodeCondition>)
    ensures ReadyVerdict(cs) == Reply(false, None)
        <==> exists k :: FirstReadyAt(cs, k) && cs[k].status != ConditionFalse
  {
    var r := FirstWhere(cs, IsReadyType);
    if r.Some? {
      assert FirstReadyAt(cs, r.value);
      forall k | FirstReadyAt(cs, k) ensures k == r.value {
        FirstReadyUnique(cs, k, r.value);
      }
    }
  }

  /** An error (with `false`) exactly when no condition has type "Ready". */
  lemma ReadyErrorIffMissing(cs: seq<NodeCondition>)
    ensures ReadyVerdict(cs).err.Some? <==> forall j :: 0 <= j < |cs| ==> !IsReadyType(cs[j])
    ensures ReadyVerdict(cs).err.Some? ==> ReadyVerdict(cs) == Reply(false, Some(ConditionNotFound(NodeReady)))
  {
  }

  /**
   * The verdict depends only on the "Ready" conditions, and of those only
   * on the first one.
   */
  lemma {:induction false} ReadyVerdictByReadyConditions(cs: seq<NodeCondition>)
    ensures ReadyVerdict(cs) ==
      if ReadyConditions(cs) == [] then Reply(false, Some(ConditionNotFound(NodeReady)))
      else Reply(ReadyConditions(cs)[0].status == ConditionFalse, None)
  {
    if |cs| > 0 && !IsReadyType(cs[0]) {
      ReadyVerdictByReadyConditions(cs[1..]);
      match FirstWhere(cs[1..], IsReadyType)
      case None =>
      case Some(k) =>
        assert cs[1..][k] == cs[k + 1];
    }
  }

  lemma {:induction false} ReadyConditionsAppend(a: seq<NodeCondition>, b: seq<NodeCondition>)
    ensures ReadyConditions(a + b) == ReadyConditions(a) + ReadyConditions(b)
  {
    if |a| > 0 {
      assert (a + b)[1..] == a[1..] + b;
      ReadyConditionsAppend(a[1..], b);
    } else {
      assert a + b == b;
    }
  }

  lemma {:induction false} ReadyConditionsNonEmpty(cs: seq<NodeCondition>, k: int)
    requires 0 <= k < |cs| && IsReadyType(cs[k])
    ensures ReadyConditions(cs) != []
  {
    if k > 0 && !IsReadyType(cs[0]) {
      ReadyConditionsNonEmpty(cs[1..], k - 1);
    }
  }

  /** Inserting a condition of another type anywhere leaves the verdict unchanged. */
  lemma IgnoresOtherTypes(a: seq<NodeCondition>, c: NodeCondition, b: seq<NodeCondition>)
    requires !IsReadyType(c)
    ensures ReadyVerdict(a + [c] + b) == ReadyVerdict(a + b)
  {
    ReadyVerdictByReadyConditions(a + [c] + b);
    ReadyVerdictByReadyConditions(a + b);
    ReadyConditionsAppend(a + [c], b);
    ReadyConditionsAppend(a, [c]);
    ReadyConditionsAppend(a, b);
    assert ReadyConditions([c]) == [];
  }

  /** Once a "Ready" condition has been seen, nothing after it is consulted. */
  lemma OnlyFirstReadyConsulted(a: seq<NodeCondition>, b: seq<NodeCondition>, k: int)
    requires 0 <= k < |a| && IsReadyType(a[k])
    ensures ReadyVerdict(a + b) == ReadyVerdict(a)
  {
    ReadyVerdictByReadyConditions(a + b);
    ReadyVerdictByReadyConditions(a);
    ReadyConditionsAppend(a, b);
    ReadyConditionsNonEmpty(a, k);
  }
}
