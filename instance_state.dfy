/**
 * The instance-state check of the cleanup loop (`isRunning` in main.go).
 *
 * The EC2 DescribeInstances call is replaced by its response: either the
 * error the call returned, or the reservations it listed. The check then
 * walks the reservations in order, and the instances of each in order,
 * and the first instance with the requested id decides the answer.
 */
module InstanceState {
  import opened Common

  /** The lifecycle states an EC2 instance reports. */
  datatype InstanceStateName = Pending | Running | ShuttingDown | Terminated | Stopping | Stopped

  datatype Instance = Instance(instanceId: string, state: InstanceStateName)

  datatype Reservation = Reservation(instances: seq<Instance>)

  /** The outcome of one DescribeInstances call. */
  datatype DescribeResponse =
    | DescribeFailed(err: Error)
    | Described(reservations: seq<Reservation>)

  /** A place in a response: a reservation, and an instance within it. */
  datatype Position = Position(reservation: nat, instance: nat)

  /** Instance `i` of reservation `r` exists and has the requested id. */
  predicate MatchAt(rs: seq<Reservation>, id: string, r: int, i: int) {
    0 <= r < |rs| && 0 <= i < |rs[r].instances| && rs[r].instances[i].instanceId == id
  }

  /** (r1, i1) comes before (r2, i2) in the order the scan visits them. */
  predicate Earlier(r1: int, i1: int, r2: int, i2: int) {
    r1 < r2 || (r1 == r2 && i1 < i2)
  }

  /** (r, i) holds the requested id and no earlier place does. */
  ghost predicate FirstMatchAt(rs: seq<Reservation>, id: string, r: int, i: int) {
    MatchAt(rs, id, r, i) && forall r2, i2 :: MatchAt(rs, id, r2, i2) ==> !Earlier(r2, i2, r, i)
  }

  lemma MatchShift(rs: seq<Reservation>, id: string)
    requires |rs| > 0
    ensures forall r, i :: MatchAt(rs[1..], id, r, i) ==> MatchAt(rs, id, r + 1, i)
    ensures forall r, i :: MatchAt(rs, id, r, i) && r > 0 ==> MatchAt(rs[1..], id, r - 1, i)
  {
  }

  /** The first place, in scan order, that holds the requested id. */
  function FirstMatch(rs: seq<Reservation>, id: string): (p: Option<Position>)
    ensures p.Some? ==> FirstMatchAt(rs, id, p.value.reservation, p.value.instance)
    ensures p.None? ==> forall r, i :: !MatchAt(rs, id, r, i)
  {
    if |rs| == 0 then None
    else
      MatchShift(rs, id);
      match FirstWhere(rs[0].instances, (inst: Instance) => inst.instanceId == id)
      case Some(i) => Some(Position(0, i))
      case None =>
        match FirstMatch(rs[1..], id)
        case None => None
        case Some(q) => Some(Position(q.reservation + 1, q.instance))
  }

  lemma FirstMatchUnique(rs: seq<Reservation>, id: string, r1: int, i1: int, r2: int, i2: int)
    requires FirstMatchAt(rs, id, r1, i1) && FirstMatchAt(rs, id, r2, i2)
    ensures r1 == r2 && i1 == i2
  {
  }

  /** What `isRunning` returns for a DescribeInstances response. */
  function RunningVerdict(resp: DescribeResponse, id: string): Reply {
    match resp
    case DescribeFailed(e) => Reply(false, Some(e))
    case Described(rs) =>
      if |rs| == 0 then Reply(false, None)
      else match FirstMatch(rs, id)
        case None => Reply(false, Some(InstanceNotFound(id)))
        case Some(p) => Reply(rs[p.reservation].instances[p.instance].state == Running, None)
  }

  /** The nested scan of `isRunning` over the response's reservations and instances. */
  method IsRunning(resp: DescribeResponse, id: string) returns (running: bool, err: Option<Error>)
    ensures Reply(running, err) == RunningVerdict(resp, id)
  {
    if resp.DescribeFailed? {
      return false, Some(resp.err);
    }
    var rs := resp.reservations;
    if |rs| == 0 {
      return false, None;
    }
    for r := 0 to |rs|
      invariant forall r2, i2 :: MatchAt(rs, id, r2, i2) ==> r2 >= r
    {
      var instances := rs[r].instances;
      for i := 0 to |instances|
        invariant forall r2, i2 :: MatchAt(rs, id, r2, i2) ==> !Earlier(r2, i2, r, i)
      {
        if instances[i].instanceId != id {
          continue;
        }
        assert FirstMatchAt(rs, id, r, i);
        FirstMatchUnique(rs, id, r, i, FirstMatch(rs, id).value.reservation, FirstMatch(rs, id).value.instance);
        return instances[i].state == Running, None;
      }
    }
    return false, Some(InstanceNotFound(id));
  }

  /** The error cases: a failed query, or reservations that never mention the id. */
  lemma RunningErrorIff(resp: DescribeResponse, id: string)
    ensures RunningVerdict(resp, id).err.Some? <==>
      resp.DescribeFailed? ||
      (|resp.reservations| > 0 && forall r, i :: !MatchAt(resp.reservations, id, r, i))
    ensures RunningVerdict(resp, id).err.Some? ==> !RunningVerdict(resp, id).value
    ensures resp.DescribeFailed? ==> RunningVerdict(resp, id) == Reply(false, Some(resp.err))
    ensures resp.Described? && |resp.reservations| > 0 && (forall r, i :: !MatchAt(resp.reservations, id, r, i))
      ==> RunningVerdict(resp, id) == Reply(false, Some(InstanceNotFound(id)))
  {
    if resp.Described? && |resp.reservations| > 0 {
      var rs := resp.reservations;
      match FirstMatch(rs, id)
      case None =>
      case Some(p) =>
        assert MatchAt(rs, id, p.reservation, p.instance);
    }
  }

  /** A response with no reservations means "not running", without error. */
  lemma NoReservationsNotRunning(id: string)
    ensures RunningVerdict(Described([]), id) == Reply(false, None)
  {
  }

  /**
   * When the id appears, the first instance carrying it decides: running
   * gives `(true, nil)`, any other state `(false, nil)`.
   */
  lemma FirstMatchDecides(rs: seq<Reservation>, id: string, r: int, i: int)
    requires FirstMatchAt(rs, id, r, i)
    ensures RunningVerdict(Described(rs), id) == Reply(rs[r].instances[i].state == Running, None)
  {
    var p := FirstMatch(rs, id);
    if p.Some? {
      FirstMatchUnique(rs, id, r, i, p.value.reservation, p.value.instance);
    }
  }

  /**
   * When any instance carries the id, the answer comes without error and is
   * that of the first instance carrying it.
   */
  lemma IdPresentDecidedByFirst(rs: seq<Reservation>, id: string, r: int, i: int)
    requires MatchAt(rs, id, r, i)
    ensures RunningVerdict(Described(rs), id).err.None?
    ensures exists r1, i1 ::
              FirstMatchAt(rs, id, r1, i1) &&
              RunningVerdict(Described(rs), id).value == (rs[r1].instances[i1].state == Running)
  {
    var p := FirstMatch(rs, id).value;
    assert FirstMatchAt(rs, id, p.reservation, p.instance);
  }
}
