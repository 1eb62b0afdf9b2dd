/** What the hub sends and receives, as plain values: the descriptors of the
    discovery list, the device-detail reply and the move command body. */
module Hub {
  import opened Wrappers

  /** One entry of the discovery list `devices`. `position` is
      `statusesMap.position`, absent when the hub leaves it out or sends `null`. */
  datatype Device = Device(
    did: string,
    deviceNumber: string,
    name: string,
    description: string,
    position: Option<int>,
    hasErrors: int)
  {
    /** `statusesMap.position ? statusesMap.position : 0`: a missing position
        reads as 0, and a reported 0 (falsy) reads as 0 too. */
    function ReportedPosition(): int {
      position.GetOr(0)
    }
  }

  /** The reply to `GET /v4/devices/{did}`. `DetailFailed` is any transport
      failure; `position` is `device.statusesMap.Position`, absent when
      `statusesMap` is missing or `Position` is `null`. */
  datatype DetailReply =
    | DetailFailed
    | Detail(position: Option<int>, hasErrors: int)

  /** The outcome of `PUT /devices/{did}`; the body of a success is unused. */
  datatype PutReply = PutOk | PutFailed

  const GotoPosCmd: string := "GOTO_POS_CMD"

  /** The move command: sent to the device `did` with body
      `{name: name, value: value}`, `value` in the hub's orientation. */
  datatype MoveCommand = MoveCommand(did: string, name: string, value: int)
}
