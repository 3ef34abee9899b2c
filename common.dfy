/**
 * Vocabulary shared by the node-cleanup model: optional values, the errors
 * the cleanup loop can meet, Go's `(bool, error)` result pair, and the
 * "first element that satisfies a test" scan that both helper functions of
 * the loop perform.
 */
module Common {

  datatype Option<+T> = None | Some(value: T)

  /** The errors that reach the cleanup loop. */
  datatype Error =
    /** An error returned by the cluster API or the EC2 API, passed on unchanged. */
    | ApiError(message: string)
    /** isReady found no condition of the given type. */
    | ConditionNotFound(condType: string)
    /** isRunning got reservations, but none held the requested instance. */
    | InstanceNotFound(instanceId: string)

  /** A Go `(bool, error)` result: the boolean is only meaningful when `err` is None. */
  datatype Reply = Reply(value: bool, err: Option<Error>)

  /**
   * The position of the first element of `s` that satisfies `p`, scanning
   * from the front, or None when no element does.
   */
  function FirstWhere<T>(s: seq<T>, p: T -> bool): (r: Option<nat>)
    ensures r.Some? ==> r.value < |s| && p(s[r.value])
    ensures r.Some? ==> forall j :: 0 <= j < r.value ==> !p(s[j])
    ensures r.None? ==> forall j :: 0 <= j < |s| ==> !p(s[j])
  {
    if |s| == 0 then None
    else if p(s[0]) then Some(0)
    else match FirstWhere(s[1..], p)
      case None => None
      case Some(k) => Some(k + 1)
  }
}
