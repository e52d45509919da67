/** The DFU class requests as functions: the state machine, the shadow copy a DNLOAD leaves for the
    completion callback, and the reply each request puts in the control buffer. */
module DfuRequests {
  import opened Words
  import opened Flash
  import opened Commands

  datatype DfuState =
    | AppIdle | AppDetach | DfuIdle | DnloadSync | DnBusy | DnloadIdle
    | ManifestSync | Manifest | ManifestWaitReset | UploadIdle | Error
  {
    function Code(): Byte {
      match this
      case AppIdle => 0
      case AppDetach => 1
      case DfuIdle => 2
      case DnloadSync => 3
      case DnBusy => 4
      case DnloadIdle => 5
      case ManifestSync => 6
      case Manifest => 7
      case ManifestWaitReset => 8
      case UploadIdle => 9
      case Error => 10
    }

    /** A command is recorded and has not been executed or cancelled. */
    predicate Pending() {
      DnloadSync? || DnBusy?
    }
  }

  const DFU_DETACH: Byte := 0
  const DFU_DNLOAD: Byte := 1
  const DFU_UPLOAD: Byte := 2
  const DFU_GETSTATUS: Byte := 3
  const DFU_CLRSTATUS: Byte := 4
  const DFU_GETSTATE: Byte := 5
  const DFU_ABORT: Byte := 6

  const STATUS_OK: Byte := 0
  const STATUS_ERR_UNKNOWN: Byte := 14
  const POLL_TIMEOUT: Byte := 100

  datatype Setup = Setup(bmRequestType: Byte, bRequest: Byte, wValue: U16, wIndex: U16, wLength: U16)
  {
    predicate DeviceToHost() {
      bmRequestType >= 0x80
    }

    /** Type "class", recipient "interface": what the dispatcher hands to the DFU layer. */
    predicate ForDfu() {
      bmRequestType % 0x80 == 0x21
    }
  }

  /** The 8 bytes of a setup packet, as the packed structure lays them out. */
  function Encode(s: Setup): (p: seq<Byte>)
    ensures |p| == 8
  {
    [s.bmRequestType, s.bRequest] + Bytes16(s.wValue) + Bytes16(s.wIndex) + Bytes16(s.wLength)
  }

  function Decode(p: seq<Byte>): Setup
    requires |p| == 8
  {
    Setup(p[0], p[1], Le16(p, 2), Le16(p, 4), Le16(p, 6))
  }

  lemma DecodeEncode(s: Setup)
    ensures Decode(Encode(s)) == s
  {
  }

  /** The bytes on the wire, low byte first. */
  lemma EncodeBytes(s: Setup)
    ensures Encode(s) == [s.bmRequestType, s.bRequest, s.wValue % 256, s.wValue / 256,
                          s.wIndex % 256, s.wIndex / 256, s.wLength % 256, s.wLength / 256]
  {
  }

  /** s with data written at offset at. */
  function Overwrite(s: seq<Byte>, at: nat, data: seq<Byte>): (r: seq<Byte>)
    requires at + |data| <= |s|
    ensures |r| == |s|
    ensures r[..at] == s[..at] && r[at..at + |data|] == data && r[at + |data|..] == s[at + |data|..]
    ensures r[..at + |data|] == s[..at] + data
  {
    s[..at] + data + s[at + |data|..]
  }

  datatype ReturnCode = NotSupported | Handled | NextCallback

  /** DFU state and the shadow copy of the last DNLOAD. */
  datatype Dfu = Dfu(state: DfuState, prog: Command)

  /** What a request handler leaves: its return code, the DFU layer, the control buffer, the reply
      length, and whether a completion callback is registered. */
  datatype Reply = Reply(code: ReturnCode, dfu: Dfu, buffer: seq<Byte>, len: U16, callback: bool)

  /** `usbdfu_getstatus`: the state after the request. */
  function StatusState(s: DfuState): DfuState {
    match s
    case DnloadSync => DnBusy
    case ManifestSync => Manifest
    case _ => s
  }

  function StatusReply(s: DfuState): (r: seq<Byte>)
    ensures |r| == 6
  {
    [if s.Error? then STATUS_ERR_UNKNOWN else STATUS_OK,
     if s.DnloadSync? then POLL_TIMEOUT else 0, 0, 0, StatusState(s).Code(), 0]
  }

  /** The bytes DFU_UPLOAD copies out of memory. */
  function ReadRange(chip: Chip, mem: seq<Byte>, a: U32, n: nat): (r: seq<Byte>)
    requires chip.Holds(mem)
    ensures |r| == n
  {
    seq<Byte>(n, i => Read(chip, mem, Wrap(a + i)))
  }

  /** `usbdfu_control_request`, called with *len == len and no callback registered yet. */
  function DfuRequest(chip: Chip, t: Target, d: Dfu, req: Setup, buffer: seq<Byte>, len: U16): (r: Reply)
    requires chip.Holds(t.mem) && |buffer| == TRANSFER_SIZE && |d.prog.buf| == TRANSFER_SIZE
    ensures |r.buffer| == TRANSFER_SIZE && |r.dfu.prog.buf| == TRANSFER_SIZE
  {
    if req.bRequest == DFU_DNLOAD then
      if len == 0 then Reply(Handled, d.(state := ManifestSync), buffer, len, false)
      else
        var n := Min(len, TRANSFER_SIZE);
        var shadow := Overwrite(d.prog.buf, 0, buffer[..n]);
        Reply(Handled, Dfu(DnloadSync, Command(req.wValue, n, shadow)), buffer, len, false)
    else if req.bRequest == DFU_CLRSTATUS then
      Reply(Handled, if d.state.Error? then d.(state := DfuIdle) else d, buffer, len, false)
    else if req.bRequest == DFU_ABORT then
      Reply(Handled, d.(state := DfuIdle), buffer, len, false)
    else if req.bRequest == DFU_DETACH then
      Reply(Handled, d.(state := Manifest), buffer, len, false)
    else if req.bRequest == DFU_UPLOAD then
      if req.wValue == 0 then
        Reply(Handled, d.(state := UploadIdle), Overwrite(buffer, 0, [0, CMD_SETADDR, CMD_ERASE]), 3, false)
      else
        var base := BlockAddress(t.addr, req.wValue);
        if chip.upload && Accepts(chip, base, TRANSFER_SIZE) then
          Reply(Handled, d.(state := UploadIdle),
                Overwrite(buffer, 0, ReadRange(chip, t.mem, base, TRANSFER_SIZE)), TRANSFER_SIZE, false)
        else Reply(Handled, d.(state := Error), buffer, 0, false)
    else if req.bRequest == DFU_GETSTATUS then
      Reply(Handled, d.(state := StatusState(d.state)), Overwrite(buffer, 0, StatusReply(d.state)), 6, true)
    else if req.bRequest == DFU_GETSTATE then
      Reply(Handled, d, Overwrite(buffer, 0, [d.state.Code()]), 1, false)
    else Reply(NextCallback, d, buffer, len, false)
  }
}
