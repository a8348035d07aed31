/**
 * What a delete call hands back to the run loop, how the loop classifies it,
 * and how each module computes its own stop flag.
 */
module Outcomes {
  import opened Options

  /**
   * The response object of one delete call, as far as the run loop reads it:
   * no response object at all, a body that is not JSON, or a decoded body with
   * its `no` field (None when absent or not an integer: either way it is not 0)
   * and its `err_code` field.
   */
  datatype Response =
    | NoResponse
    | Undecodable
    | Decoded(no: Option<int>, errCode: ErrCode)

  /**
   * The `err_code` field of a decoded body: absent (reading it raises
   * `KeyError`), an integer, or some other JSON value (null, a string, ...),
   * which compares unequal to every integer.
   */
  datatype ErrCode = Absent | Code(code: int) | NotAnInteger

  datatype FailureReason = NoResponseReceived | UndecodableBody | Rejected(no: Option<int>)

  /** The run loop's reading of one response: success or a soft failure. */
  datatype Outcome = Success | SoftFailure(reason: FailureReason)

  /**
   * The response branches of the run loop: a decoded body whose `no` is 0 is
   * a success; a missing response, a body that fails to decode and any other
   * decoded body are failures.
   */
  function Classify(resp: Response): (o: Outcome)
    ensures o.Success? <==> resp.Decoded? && resp.no == Some(0)
    ensures resp.NoResponse? ==> o == SoftFailure(NoResponseReceived)
    ensures resp.Undecodable? ==> o == SoftFailure(UndecodableBody)
  {
    match resp
    case NoResponse => SoftFailure(NoResponseReceived)
    case Undecodable => SoftFailure(UndecodableBody)
    case Decoded(no, _) => if no == Some(0) then Success else SoftFailure(Rejected(no))
  }

  /**
   * The consecutive-failure counter after one response: reset on success,
   * one more on any failure.
   */
  function NextErrorCount(errors: nat, resp: Response): (n: nat)
    ensures n == 0 <==> Classify(resp).Success?
    ensures !Classify(resp).Success? ==> n == errors + 1
  {
    if Classify(resp).Success? then 0 else errors + 1
  }

  /** The five modules, each bound to one section of the configuration. */
  datatype ModuleKind = Thread | Reply | FollowedBa | Concern | Fan

  function ModuleName(kind: ModuleKind): (name: string)
  {
    match kind
    case Thread => "thread"
    case Reply => "reply"
    case FollowedBa => "followed_ba"
    case Concern => "concern"
    case Fan => "fan"
  }

  /** The service's error code for "too many operations", which stops everything. */
  const QuotaExceededCode: int := 220034

  /** The modules whose delete reads an error code from the response. */
  predicate ReadsErrorCode(kind: ModuleKind)
  {
    kind == Thread || kind == Reply
  }

  /**
   * The stop flag a module's `_delete` returns next to the response, or None
   * when `_delete` raises before returning: the thread and reply deleters read
   * `err_code` out of the decoded body themselves, which fails when there is
   * no response, no JSON body or no `err_code` key; a present `err_code` that
   * is not 220034 (including one that is not an integer) means "go on"; the
   * other three modules never ask to stop.
   */
  function DeleteStopFlag(kind: ModuleKind, resp: Response): (stop: Option<bool>)
    ensures stop == Some(true) <==>
      ReadsErrorCode(kind) && resp.Decoded? && resp.errCode == Code(QuotaExceededCode)
    ensures stop == None <==> ReadsErrorCode(kind) && !(resp.Decoded? && !resp.errCode.Absent?)
  {
    if !ReadsErrorCode(kind) then Some(false)
    else match resp
      case Decoded(_, Code(code)) => Some(code == QuotaExceededCode)
      case Decoded(_, NotAnInteger) => Some(false)
      case _ => None
  }
}
