/** The per-blind adapter: the live state one accessory keeps for one hub
    device, and how each characteristic get/set changes it. Every hub reply is
    an input value; a get or set is an issue step followed by the step that
    handles the reply. `IssueSetTarget` and `CompleteSetTarget` may be composed
    with other calls in between; only `Apply` and `Run` treat a set as one
    atomic step. */
module Blinds {
  import opened Wrappers
  import opened Percent
  import opened Hub

  /** The PositionState characteristic. */
  datatype PositionState = Decreasing | Increasing | Stopped

  /** Why a characteristic callback was given an error. */
  datatype Error =
    | RequestFailed        // the HTTP call failed (GET or PUT)
    | PositionParseFailed  // the detail reply carried no position

  /** The adapter state. Positions are in the adapter's orientation (already
      reversed when `inverted`). `publishedCurrent` and `publishedState` are
      the last values this adapter pushed into the CurrentPosition and
      PositionState characteristics; `None` means none pushed yet. */
  datatype Blind = Blind(
    did: string,
    inverted: bool,
    lastPosition: int,
    currentTargetPosition: int,
    currentPositionState: PositionState,
    publishedCurrent: Option<int>,
    publishedState: PositionState)

  /** A blind after an operation, and what its callback received. */
  datatype Step<T> = Step(blind: Blind, result: Result<T, Error>)

  /** A blind after a move was requested, and the command sent to the hub. */
  datatype Issued = Issued(blind: Blind, command: MoveCommand)

  /** The adapter built for descriptor `d`: its last position is what the hub
      reported (0 when missing), seen through the orientation transform. */
  function Init(d: Device, inverted: bool): (b: Blind)
    ensures b.did == d.did && b.inverted == inverted
    ensures Orient(inverted, b.lastPosition) == d.ReportedPosition()
    ensures d.position.None? ==> b.lastPosition == (if inverted then Max else Min)
    ensures b.currentTargetPosition == b.lastPosition
    ensures b.currentPositionState == Stopped && b.publishedState == Stopped
    ensures b.publishedCurrent.None?
  {
    var position := Orient(inverted, d.ReportedPosition());
    Blind(d.did, inverted, position, position, Stopped, None, Stopped)
  }

  /** The issue half of `setTargetPosition(value)`: record the target, publish
      the inferred direction of travel, and build the move command. */
  function IssueSetTarget(b: Blind, value: int): (i: Issued)
    ensures i.blind.currentTargetPosition == value
    ensures i.blind.publishedState != Stopped
    ensures i.blind.publishedState == Increasing <==> value >= b.lastPosition
    ensures i.blind.lastPosition == b.lastPosition
    ensures i.blind.publishedCurrent == b.publishedCurrent
    ensures i.blind.currentPositionState == b.currentPositionState
    ensures i.blind.did == b.did && i.blind.inverted == b.inverted
    ensures i.command.did == b.did && i.command.name == GotoPosCmd
    ensures Orient(b.inverted, i.command.value) == value
    ensures InRange(value) ==> InRange(i.command.value)
  {
    var moveUp := value >= b.lastPosition;
    var blind := b.(
      currentTargetPosition := value,
      publishedState := if moveUp then Increasing else Decreasing);
    Issued(blind, MoveCommand(b.did, GotoPosCmd, Orient(b.inverted, value)))
  }

  /** The reply half of `setTargetPosition`. On success the move is taken as
      done: the target becomes the published and the last position and the
      published state goes back to STOPPED. On failure nothing changes, so a
      published direction stays as it was. */
  function CompleteSetTarget(b: Blind, reply: PutReply): (s: Step<int>)
    ensures reply.PutOk? ==>
      && s.result == Ok(b.currentTargetPosition)
      && s.blind.lastPosition == b.currentTargetPosition
      && s.blind.publishedCurrent == Some(b.currentTargetPosition)
      && s.blind.publishedState == Stopped
      && s.blind.currentTargetPosition == b.currentTargetPosition
      && s.blind.currentPositionState == b.currentPositionState
      && s.blind.did == b.did && s.blind.inverted == b.inverted
    ensures reply.PutFailed? ==> s.result == Err(RequestFailed) && s.blind == b
  {
    match reply
    case PutOk =>
      var target := b.currentTargetPosition;
      Step(b.(publishedCurrent := Some(target), publishedState := Stopped, lastPosition := target), Ok(target))
    case PutFailed =>
      Step(b, Err(RequestFailed))
  }

  /** `setTargetPosition(value)` with the hub's reply to its move command. */
  function SetTargetPosition(b: Blind, value: int, reply: PutReply): (s: Step<int>)
    ensures s.blind.currentTargetPosition == value
    ensures s.blind.currentPositionState == b.currentPositionState
    ensures s.blind.did == b.did && s.blind.inverted == b.inverted
    ensures reply.PutOk? ==>
      && s.result == Ok(value)
      && s.blind.lastPosition == value
      && s.blind.publishedCurrent == Some(value)
      && s.blind.publishedState == Stopped
    ensures reply.PutFailed? ==>
      && s.result == Err(RequestFailed)
      && s.blind.lastPosition == b.lastPosition
      && s.blind.publishedCurrent == b.publishedCurrent
      && s.blind.publishedState != Stopped
      && (s.blind.publishedState == Increasing <==> value >= b.lastPosition)
  {
    CompleteSetTarget(IssueSetTarget(b, value).blind, reply)
  }

  /** The position a detail reply carries, in the adapter's orientation. */
  function ReadPosition(b: Blind, reply: DetailReply): (r: Result<int, Error>)
    ensures r.Ok? <==> reply.Detail? && reply.position.Some?
    ensures r.Ok? ==> Orient(b.inverted, r.value) == reply.position.value
    ensures reply.DetailFailed? ==> r == Err(RequestFailed)
    ensures reply.Detail? && reply.position.None? ==> r == Err(PositionParseFailed)
  {
    match reply
    case DetailFailed => Err(RequestFailed)
    case Detail(None, _) => Err(PositionParseFailed)
    case Detail(Some(p), _) => Ok(Orient(b.inverted, p))
  }

  /** `getTargetPosition`: a fetched position becomes the target only. */
  function GetTargetPosition(b: Blind, reply: DetailReply): (s: Step<int>)
    ensures s.result.Ok? <==> reply.Detail? && reply.position.Some?
    ensures s.result.Ok? ==>
      && Orient(b.inverted, s.result.value) == reply.position.value
      && s.blind == b.(currentTargetPosition := s.result.value)
    ensures reply.DetailFailed? ==> s.result == Err(RequestFailed)
    ensures reply.Detail? && reply.position.None? ==> s.result == Err(PositionParseFailed)
    ensures s.result.Err? ==> s.blind == b
    ensures s.blind.lastPosition == b.lastPosition
  {
    var r := ReadPosition(b, reply);
    if r.Ok? then Step(b.(currentTargetPosition := r.value), r) else Step(b, r)
  }

  /** `getCurrentPosition`: a fetched position becomes both the target and
      the last position. */
  function GetCurrentPosition(b: Blind, reply: DetailReply): (s: Step<int>)
    ensures s.result.Ok? <==> reply.Detail? && reply.position.Some?
    ensures s.result.Ok? ==>
      && Orient(b.inverted, s.result.value) == reply.position.value
      && s.blind == b.(currentTargetPosition := s.result.value, lastPosition := s.result.value)
    ensures reply.DetailFailed? ==> s.result == Err(RequestFailed)
    ensures reply.Detail? && reply.position.None? ==> s.result == Err(PositionParseFailed)
    ensures s.result.Err? ==> s.blind == b
  {
    var r := ReadPosition(b, reply);
    if r.Ok? then Step(b.(currentTargetPosition := r.value, lastPosition := r.value), r) else Step(b, r)
  }

  /** `getPositionState`: the cached state, no hub call. */
  function GetPositionState(b: Blind): PositionState {
    b.currentPositionState
  }

  /** `getObstructionDetected`: whether the hub reports errors for the device.
      Unlike the position getters it does not look at `statusesMap`. */
  function GetObstructionDetected(reply: DetailReply): (r: Result<bool, Error>)
    ensures r.Err? <==> reply.DetailFailed?
    ensures r.Err? ==> r.error == RequestFailed
    ensures r == Ok(true) <==> reply.Detail? && reply.hasErrors != 0
  {
    match reply
    case DetailFailed => Err(RequestFailed)
    case Detail(_, hasErrors) => Ok(hasErrors != 0)
  }

  /** One characteristic call the host may make, with the hub reply it gets. */
  datatype Op =
    | SetTarget(value: int, put: PutReply)
    | GetTarget(detail: DetailReply)
    | GetCurrent(detail: DetailReply)
    | GetState
    | GetObstruction(detail: DetailReply)

  function Apply(b: Blind, op: Op): Blind {
    match op
    case SetTarget(v, put) => SetTargetPosition(b, v, put).blind
    case GetTarget(detail) => GetTargetPosition(b, detail).blind
    case GetCurrent(detail) => GetCurrentPosition(b, detail).blind
    case GetState => b
    case GetObstruction(_) => b
  }

  /** The blind after the calls `ops`, in order. */
  function Run(b: Blind, ops: seq<Op>): Blind
    decreases |ops|
  {
    if |ops| == 0 then b else Run(Apply(b, ops[0]), ops[1..])
  }

  /** No call changes the device, the orientation or `currentPositionState`. */
  lemma {:induction false} RunKeepsIdentity(b: Blind, ops: seq<Op>)
    ensures Run(b, ops).did == b.did
    ensures Run(b, ops).inverted == b.inverted
    ensures Run(b, ops).currentPositionState == b.currentPositionState
    decreases |ops|
  {
    if |ops| > 0 {
      RunKeepsIdentity(Apply(b, ops[0]), ops[1..]);
    }
  }

  /** `getPositionState` answers STOPPED after any sequence of calls, whatever
      direction a pending move has published. */
  lemma PositionStateAlwaysStopped(d: Device, inverted: bool, ops: seq<Op>)
    ensures GetPositionState(Run(Init(d, inverted), ops)) == Stopped
  {
    RunKeepsIdentity(Init(d, inverted), ops);
  }

  /** Every position the adapter holds or has published is in 0 .. 100. */
  predicate InRangeState(b: Blind) {
    && InRange(b.lastPosition)
    && InRange(b.currentTargetPosition)
    && (b.publishedCurrent.Some? ==> InRange(b.publishedCurrent.value))
  }

  /** A reply whose position, if any, is in 0 .. 100. */
  predicate ValidDetail(reply: DetailReply) {
    reply.Detail? && reply.position.Some? ==> InRange(reply.position.value)
  }

  /** A call whose inputs are in 0 .. 100, as the host and hub guarantee. */
  predicate ValidOp(op: Op) {
    match op
    case SetTarget(v, _) => InRange(v)
    case GetTarget(detail) => ValidDetail(detail)
    case GetCurrent(detail) => ValidDetail(detail)
    case GetState => true
    case GetObstruction(_) => true
  }

  lemma InitInRange(d: Device, inverted: bool)
    requires d.position.Some? ==> InRange(d.position.value)
    ensures InRangeState(Init(d, inverted))
  {
  }

  /** In-range inputs keep every held position in 0 .. 100. */
  lemma {:induction false} RunStaysInRange(b: Blind, ops: seq<Op>)
    requires InRangeState(b)
    requires forall i :: 0 <= i < |ops| ==> ValidOp(ops[i])
    ensures InRangeState(Run(b, ops))
    decreases |ops|
  {
    if |ops| > 0 {
      assert ValidOp(ops[0]);
      RunStaysInRange(Apply(b, ops[0]), ops[1..]);
    }
  }

  /** Moving to `value` and then polling a hub that reports the raw value it
      was sent reads back `value`, in either orientation. */
  lemma MoveThenPollReadsTarget(b: Blind, value: int, hasErrors: int)
    ensures
      var sent := IssueSetTarget(b, value).command.value;
      var moved := SetTargetPosition(b, value, PutOk);
      var polled := GetCurrentPosition(moved.blind, Detail(Some(sent), hasErrors));
      polled.result == Ok(value) && polled.blind == moved.blind
  {
  }
}
