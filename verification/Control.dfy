/** The control-transfer machine of endpoint 0 as functions on its state: packet splitting and
    reassembly, request dispatch, stall and NAK handling, and what one polled event does. */
module Control {
  import opened Words
  import opened Flash
  import opened Commands
  import opened DfuRequests

  const PACKET: int := 64

  /** Endpoint status, one per direction, as the hardware keeps it. */
  datatype Stat = Disabled | Stall | Nak | Valid

  datatype Endpoint = Endpoint(tx: Stat, rx: Stat)

  datatype Fsm = Idle | DataIn | LastDataIn | StatusIn | DataOut | LastDataOut | StatusOut

  /** The USB layer: FSM variables, decoded setup packet, endpoint 0 and the other seven endpoints,
      the packet waiting in endpoint 0's transmit buffer, the address register, the control buffer,
      and the DFU layer behind it. */
  datatype Usb = Usb(
    fsm: Fsm, datasize: U16, dataoff: U16, needsZlp: bool, req: Setup, callback: bool,
    forceNak: bool, tx: Stat, rx: Stat, others: seq<Endpoint>, packet: seq<Byte>,
    daddr: Byte, buffer: seq<Byte>, dfu: Dfu)
  {
    predicate Sized() {
      |buffer| == TRANSFER_SIZE && |dfu.prog.buf| == TRANSFER_SIZE && |others| == 7
    }
  }

  const GET_STATUS: Byte := 0
  const CLEAR_FEATURE: Byte := 1
  const SET_FEATURE: Byte := 3
  const SET_ADDRESS: Byte := 5
  const GET_DESCRIPTOR: Byte := 6
  const GET_CONFIGURATION: Byte := 8
  const SET_CONFIGURATION: Byte := 9
  const GET_INTERFACE: Byte := 10
  const SET_INTERFACE: Byte := 11
  const LANGID_ENGLISH: U16 := 0x409
  const ADDRESS_ENABLE: Byte := 0x80

  const DEVICE_DESCRIPTOR: seq<Byte> :=
    [18, 1, 0, 2, 0, 0, 0, 64, 0x50, 0x1d, 0x31, 0x60, 0, 2, 1, 2, 3, 1]

  function ConfigDescriptor(chip: Chip): (r: seq<Byte>)
    ensures |r| == 27
  {
    [9, 2, 27, 0, 1, 1, 5, 0xC0, 0x32,
     9, 4, 0, 0, 0, 0xFE, 1, 2, 4,
     9, 0x21, if chip.upload then 0x0B else 0x09, 255, 0, 0, 0x10, 0x1A, 0x01]
  }

  /** A string as UTF-16 code units. */
  function Widen(s: seq<Byte>): (r: seq<Byte>)
    ensures |r| == 2 * |s|
  {
    if s == [] then [] else Widen(s[..|s| - 1]) + [s[|s| - 1], 0]
  }

  // ---- Endpoint primitives -------------------------------------------------------------------

  /** `_stall_transaction` */
  function StallTransaction(u: Usb): Usb {
    u.(tx := Stall, rx := Stall, fsm := Idle)
  }

  /** `_usbd_ep_write_packet` on endpoint 0: refused while a packet is still armed. */
  function WritePacket(u: Usb, data: seq<Byte>): Usb {
    if u.tx == Valid then u else u.(packet := data, tx := Valid)
  }

  /** `_usbd_ep_nak_set(0, nak)` */
  function NakSet(u: Usb, nak: bool): Usb {
    u.(forceNak := nak, rx := if nak then Nak else Valid)
  }

  /** The part of `_usbd_ep_read_packet` that re-arms reception. */
  function Rearm(u: Usb): Usb {
    if u.forceNak then u else u.(rx := Valid)
  }

  // ---- Data stages ---------------------------------------------------------------------------

  /** `usb_control_send_chunk` */
  function SendChunk(u: Usb): (r: Usb)
    requires u.Sized() && u.dataoff + u.datasize <= TRANSFER_SIZE
  {
    if PACKET < u.datasize then
      WritePacket(u, u.buffer[u.dataoff..u.dataoff + PACKET])
      .(fsm := DataIn, dataoff := u.dataoff + PACKET, datasize := u.datasize - PACKET)
    else
      WritePacket(u, u.buffer[u.dataoff..u.dataoff + u.datasize])
      .(fsm := if u.needsZlp then DataIn else LastDataIn, needsZlp := false, datasize := 0)
  }

  /** Size the next OUT packet must have. */
  function Expected(u: Usb): int {
    Min(PACKET, u.req.wLength - u.datasize)
  }

  /** `usb_control_recv_chunk`: packets longer than expected are cut, shorter ones stall. The flag is
      the "not negative" outcome. */
  function RecvChunk(u: Usb, p: seq<Byte>): (r: (bool, Usb))
    requires u.Sized() && u.datasize < u.req.wLength <= TRANSFER_SIZE
    ensures r.1.Sized()
  {
    var size := Min(|p| % 0x400, Expected(u));
    var v := Rearm(u.(buffer := Overwrite(u.buffer, u.datasize, p[..size])));
    if size != Expected(u) then (false, StallTransaction(v))
    else (true, v.(datasize := u.datasize + size))
  }

  // ---- Requests ------------------------------------------------------------------------------

  /** `_ep_stall_set`; endpoints above 7 do not exist. */
  function StallSet(u: Usb, addr: Byte, stall: bool): (r: Usb)
    requires u.Sized() && addr % 0x80 < 8
    ensures OnlyReplies(u, r) && r.datasize == u.datasize
  {
    var n := addr % 0x80;
    var txStat := if stall then Stall else Nak;
    var rxStat := if stall then Stall else Valid;
    if addr == 0 then u.(tx := txStat, rx := rxStat)
    else if addr == 0x80 then u.(tx := txStat)
    else if addr > 0x80 then u.(others := u.others[n - 1 := u.others[n - 1].(tx := txStat)])
    else u.(others := u.others[n - 1 := u.others[n - 1].(rx := rxStat)])
  }

  /** `_ep_stall_get` */
  predicate IsStalled(u: Usb, addr: Byte)
    requires u.Sized() && addr % 0x80 < 8
  {
    if addr == 0 then u.rx == Stall
    else if addr == 0x80 then u.tx == Stall
    else if addr > 0x80 then u.others[addr % 0x80 - 1].tx == Stall
    else u.others[addr - 1].rx == Stall
  }

  /** A request handler below the DFU layer touches only the reply and the endpoint status, and never
      arms a transmission. */
  predicate OnlyReplies(u: Usb, v: Usb) {
    && v == u.(datasize := v.datasize, buffer := v.buffer, others := v.others, tx := v.tx, rx := v.rx)
    && v.Sized() && (u.tx != Valid ==> v.tx != Valid) && (u.rx != Disabled ==> v.rx != Disabled)
  }

  function Answer(u: Usb, data: seq<Byte>): (r: (bool, Usb))
    requires u.Sized() && |data| <= TRANSFER_SIZE
    ensures OnlyReplies(u, r.1)
  {
    (true, u.(buffer := Overwrite(u.buffer, 0, data), datasize := |data|))
  }

  /** `usb_standard_get_descriptor` */
  function GetDescriptor(chip: Chip, u: Usb): (r: (bool, Usb))
    requires chip.Valid() && u.Sized()
    ensures OnlyReplies(u, r.1)
  {
    var index, kind := u.req.wValue % 0x100, u.req.wValue / 0x100;
    if kind == 1 then Answer(u, DEVICE_DESCRIPTOR)
    else if kind == 2 then Answer(u, ConfigDescriptor(chip))
    else if kind == 3 then
      if index == 0 then Answer(u, [4, 3] + Bytes16(LANGID_ENGLISH))
      else if index > 5 || u.req.wIndex != LANGID_ENGLISH then
        (false, u.(buffer := Overwrite(u.buffer, 1, [3])))
      else
        var s := chip.strings[index - 1];
        Answer(u, [2 * |s| + 2, 3] + Widen(s))
    else (false, u)
  }

  function DeviceRequest(chip: Chip, u: Usb): (r: (bool, Usb))
    requires chip.Valid() && u.Sized()
    ensures OnlyReplies(u, r.1)
  {
    if u.req.bRequest == SET_ADDRESS then (u.req.bmRequestType == 0 && u.req.wValue < 128, u)
    else if u.req.bRequest == SET_CONFIGURATION then
      if u.req.wValue == 1 then (true, u.(others := seq(7, _ => Endpoint(Disabled, Disabled))))
      else (false, u)
    else if u.req.bRequest == GET_CONFIGURATION then Answer(u, [1])
    else if u.req.bRequest == GET_DESCRIPTOR then GetDescriptor(chip, u)
    else if u.req.bRequest == GET_STATUS then Answer(u, [0, 0])
    else (false, u)
  }

  function InterfaceRequest(u: Usb): (r: (bool, Usb))
    requires u.Sized()
    ensures OnlyReplies(u, r.1)
  {
    if u.req.bRequest == GET_INTERFACE then Answer(u, [1])
    else if u.req.bRequest == SET_INTERFACE then (true, u.(datasize := 0))
    else if u.req.bRequest == GET_STATUS then (false, Answer(u, [0, 0]).1)
    else (false, u)
  }

  function EndpointRequest(u: Usb): (r: (bool, Usb))
    requires u.Sized() && u.req.wIndex % 0x80 < 8
    ensures OnlyReplies(u, r.1)
  {
    var addr := u.req.wIndex % 0x100;
    ModMod(u.req.wIndex);
    if u.req.bRequest == CLEAR_FEATURE || u.req.bRequest == SET_FEATURE then
      if u.req.wValue == 0 then (true, StallSet(u, addr, u.req.bRequest == SET_FEATURE)) else (false, u)
    else if u.req.bRequest == GET_STATUS then Answer(u, [if IsStalled(u, addr) then 1 else 0, 0])
    else (false, u)
  }

  /** A request to an endpoint names one of the eight. */
  predicate NamesEndpoint(req: Setup) {
    req.bmRequestType % 0x80 == 0x02 ==> req.wIndex % 0x80 < 8
  }

  /** A request this model covers: it names an existing endpoint, and a device-to-host request whose
      handler leaves the reply length alone asks for no more than the control buffer holds. */
  predicate Covered(req: Setup)
    ensures Covered(req) ==> NamesEndpoint(req)
  {
    NamesEndpoint(req) && (req.DeviceToHost() && req.wLength > TRANSFER_SIZE ==> SetsLength(req))
  }

  predicate SetsLength(req: Setup) {
    if req.ForDfu() then req.bRequest !in {DFU_DNLOAD, DFU_CLRSTATUS, DFU_ABORT, DFU_DETACH}
    else if req.bmRequestType % 0x80 == 0 then req.bRequest != SET_CONFIGURATION
    else if req.bmRequestType % 0x80 == 2 then req.bRequest !in {CLEAR_FEATURE, SET_FEATURE}
    else true
  }

  /** `_usbd_standard_request` */
  function StandardRequest(chip: Chip, u: Usb): (r: (bool, Usb))
    requires chip.Valid() && u.Sized() && NamesEndpoint(u.req)
    ensures OnlyReplies(u, r.1)
  {
    var kind := u.req.bmRequestType % 0x80;
    if kind == 0 then DeviceRequest(chip, u)
    else if kind == 1 then InterfaceRequest(u)
    else if kind == 2 then EndpointRequest(u)
    else (false, u)
  }

  /** `usb_control_request_dispatch` */
  function Dispatch(chip: Chip, t: Target, u: Usb): (r: (bool, Usb))
    requires chip.Valid() && chip.Holds(t.mem) && u.Sized() && NamesEndpoint(u.req)
    ensures r.1.Sized()
  {
    if u.req.ForDfu() then
      var y := DfuRequest(chip, t, u.dfu, u.req, u.buffer, u.req.wLength);
      var v := u.(dfu := y.dfu, buffer := y.buffer, datasize := y.len, callback := u.callback || y.callback);
      if y.code == NextCallback then StandardRequest(chip, v) else (y.code == Handled, v)
    else StandardRequest(chip, u)
  }

  // ---- Setup, OUT and IN transactions --------------------------------------------------------

  /** `_needs_zlp` */
  predicate NeedsZlp(len: nat, wLength: nat) {
    len < wLength && len != 0 && len % PACKET == 0
  }

  /** After a handled dispatch of a read: cut the reply to wLength and start the IN stage. */
  function StartReply(u: Usb): Usb
    requires u.Sized() && u.dataoff == 0 && Min(u.datasize, u.req.wLength) <= TRANSFER_SIZE
  {
    var n := Min(u.datasize, u.req.wLength);
    if u.req.wLength != 0 then
      SendChunk(u.(datasize := n, needsZlp := NeedsZlp(n, u.req.wLength)))
    else WritePacket(u.(datasize := n), []).(fsm := StatusIn)
  }

  /** A DFU request that does not set its reply length promises what it was asked for; all others promise
      at most the control buffer. */
  lemma DfuPromise(chip: Chip, t: Target, d: Dfu, req: Setup, buffer: seq<Byte>)
    requires chip.Holds(t.mem) && |buffer| == TRANSFER_SIZE && |d.prog.buf| == TRANSFER_SIZE && req.ForDfu()
    ensures var y := DfuRequest(chip, t, d, req, buffer, req.wLength);
            && (y.code != NotSupported)
            && (y.code == Handled ==> if SetsLength(req) then y.len <= TRANSFER_SIZE else y.len == req.wLength)
  {
    hide Overwrite, ReadRange, StatusReply, BlockAddress, Accepts;
  }

  /** A handled device request answers with less than the control buffer holds, or leaves the length. */
  lemma DeviceReply(chip: Chip, u: Usb)
    requires chip.Valid() && u.Sized()
    ensures var (ok, v) := DeviceRequest(chip, u);
            ok ==> v.datasize <= 254
                   || (u.req.bRequest in {SET_ADDRESS, SET_CONFIGURATION} && v.datasize == u.datasize)
    ensures u.req.bRequest == SET_ADDRESS && DeviceRequest(chip, u).0 ==> u.req.bmRequestType == 0
  {
    hide Overwrite, Widen, ConfigDescriptor;
  }

  lemma InterfaceReply(u: Usb)
    requires u.Sized()
    ensures var (ok, v) := InterfaceRequest(u); ok ==> v.datasize <= 2
  {
    hide Overwrite;
  }

  lemma EndpointReply(u: Usb)
    requires u.Sized() && u.req.wIndex % 0x80 < 8
    ensures var (ok, v) := EndpointRequest(u);
            ok ==> v.datasize == 2
                   || (u.req.bRequest in {CLEAR_FEATURE, SET_FEATURE} && v.datasize == u.datasize)
  {
    hide Overwrite, IsStalled, StallSet;
  }

  lemma StandardPromise(chip: Chip, u: Usb)
    requires chip.Valid() && u.Sized() && NamesEndpoint(u.req) && (u.req.DeviceToHost() || u.req.wLength == 0)
    ensures var (ok, v) := StandardRequest(chip, u);
            && (u.req.ForDfu() ==> !ok)
            && (ok && u.req.wLength != 0 ==>
                  if SetsLength(u.req) then v.datasize <= TRANSFER_SIZE else v.datasize == u.datasize)
  {
    DeviceReply(chip, u);
    InterfaceReply(u);
    if u.req.bmRequestType % 0x80 == 2 {
      EndpointReply(u);
    }
    hide DeviceRequest, InterfaceRequest, EndpointRequest;
  }

  /** What a handler that does not set the reply length leaves in it: wLength for DFU requests, what the
      previous transfer left for the others. */
  function Unset(u: Usb): U16 {
    if u.req.ForDfu() then u.req.wLength else u.datasize
  }

  /** When exactly a handled read promises more bytes than the control buffer holds. */
  lemma OverpromisesExactly(chip: Chip, t: Target, u: Usb)
    requires chip.Valid() && chip.Holds(t.mem) && u.Sized() && NamesEndpoint(u.req)
    requires u.req.DeviceToHost() || u.req.wLength == 0
    ensures var (ok, v) := Dispatch(chip, t, u);
            ok ==> && v.dataoff == u.dataoff && v.req == u.req
                   && (Min(v.datasize, u.req.wLength) > TRANSFER_SIZE
                       <==> !SetsLength(u.req) && Min(Unset(u), u.req.wLength) > TRANSFER_SIZE)
  {
    if u.req.ForDfu() {
      DfuPromise(chip, t, u.dfu, u.req, u.buffer);
      var y := DfuRequest(chip, t, u.dfu, u.req, u.buffer, u.req.wLength);
      StandardPromise(chip, u.(dfu := y.dfu, buffer := y.buffer, datasize := y.len,
                               callback := u.callback || y.callback));
    } else {
      StandardPromise(chip, u);
    }
    hide StandardRequest, DfuRequest, SetsLength;
  }

  /** A DFU read that the device handles stays within the control buffer exactly when it is covered. */
  lemma DfuFitsExactly(chip: Chip, t: Target, u: Usb)
    requires chip.Valid() && chip.Holds(t.mem) && u.Sized()
    requires u.req.ForDfu() && (u.req.DeviceToHost() || u.req.wLength == 0)
    ensures var (ok, v) := Dispatch(chip, t, u);
            ok ==> (Min(v.datasize, u.req.wLength) <= TRANSFER_SIZE <==> Covered(u.req))
  {
    OverpromisesExactly(chip, t, u);
    hide Dispatch, SetsLength;
  }

  /** An input that is not: CLRSTATUS sent as a read of one byte more than the buffer holds. */
  lemma ClearStatusOverpromises(chip: Chip, t: Target, u: Usb)
    requires chip.Valid() && chip.Holds(t.mem) && u.Sized()
    requires u.req == Setup(0xA1, DFU_CLRSTATUS, 0, 0, TRANSFER_SIZE + 1)
    ensures var (ok, v) := Dispatch(chip, t, u);
            ok && Min(v.datasize, u.req.wLength) > TRANSFER_SIZE
  {
  }

  /** A handled covered request never promises more bytes than the control buffer holds. */
  lemma ReplyFits(chip: Chip, t: Target, u: Usb)
    requires chip.Valid() && chip.Holds(t.mem) && u.Sized() && Covered(u.req)
    requires u.req.DeviceToHost() || u.req.wLength == 0
    ensures var (ok, v) := Dispatch(chip, t, u);
            ok ==> Min(v.datasize, v.req.wLength) <= TRANSFER_SIZE && v.dataoff == u.dataoff && v.req == u.req
  {
    OverpromisesExactly(chip, t, u);
    hide Dispatch, SetsLength;
  }

  /** `_usb_control_setup_read` */
  function SetupRead(chip: Chip, t: Target, u: Usb): (r: Usb)
    requires chip.Valid() && chip.Holds(t.mem) && u.Sized() && Covered(u.req)
    requires u.req.DeviceToHost() || u.req.wLength == 0
    ensures r.Sized()
  {
    var v := u.(dataoff := 0);
    ReplyFits(chip, t, v);
    var (ok, w) := Dispatch(chip, t, v);
    if ok then StartReply(w) else StallTransaction(w)
  }

  /** `_usb_control_setup_write` */
  function SetupWrite(u: Usb): Usb {
    if u.req.wLength > TRANSFER_SIZE then StallTransaction(u)
    else NakSet(u.(datasize := 0, fsm := if u.req.wLength > PACKET then DataOut else LastDataOut), false)
  }

  /** The setup structure after a setup packet of any length has been copied over it. */
  function Received(u: Usb, p: seq<Byte>): (s: Setup)
    ensures Whole(p) ==> s == Decode(p[..8])
  {
    var n := Min(|p| % 0x400, 8);
    var raw := Overwrite(Encode(u.req), 0, p[..n]);
    assert n == 8 ==> raw == p[..8];
    Decode(raw)
  }

  /** All 8 bytes of a setup packet arrived. */
  predicate Whole(p: seq<Byte>)
    ensures Whole(p) ==> |p| >= 8
  {
    |p| % 0x400 >= 8
  }

  /** A SETUP transaction: the hardware NAKs both directions, then `_usbd_control_setup`. */
  function ControlSetup(chip: Chip, t: Target, u: Usb, p: seq<Byte>): (r: Usb)
    requires chip.Valid() && chip.Holds(t.mem) && u.Sized() && (Whole(p) ==> Covered(Decode(p[..8])))
    ensures r.Sized()
  {
    var v := NakSet(u.(tx := Nak, callback := false), true).(req := Received(u, p));
    if !Whole(p) then StallTransaction(v)
    else if v.req.wLength == 0 || v.req.DeviceToHost() then SetupRead(chip, t, v)
    else SetupWrite(v)
  }

  /** What holds between polls, whatever the host did. */
  predicate Inv(u: Usb) {
    && u.Sized()
    && (u.fsm == DataOut ==> u.datasize + PACKET < u.req.wLength)
    && (u.fsm == LastDataOut ==> u.datasize < u.req.wLength <= u.datasize + PACKET)
    && (u.fsm == DataOut || u.fsm == LastDataOut ==>
          u.req.wLength <= TRANSFER_SIZE && Covered(u.req) && u.tx != Valid && !u.callback
          && !u.req.DeviceToHost())
    && (u.fsm == DataIn ==> u.dataoff + u.datasize <= TRANSFER_SIZE)
    && (u.fsm == StatusIn && u.req.bmRequestType == 0 && u.req.bRequest == SET_ADDRESS ==>
          u.req.wValue < 128)
    && (u.dfu.state.Pending() ==> u.dfu.prog.Valid())
  }

  /** Clearing the callback after the status stage, as `_usbd_control_out` does; the flash work itself
      is the Target's. */
  function Completed(u: Usb): Usb {
    if u.callback && u.dfu.state == DnBusy then u.(dfu := u.dfu.(state := DnloadIdle)) else u
  }

  /** After the dispatch of a write: the status stage, or a stall. */
  function Answered(handled: bool, u: Usb): Usb {
    if handled then WritePacket(u, []).(fsm := StatusIn) else StallTransaction(u)
  }

  /** An accepted OUT transaction: the hardware NAKs reception, then `_usbd_control_out`. */
  function ControlOut(chip: Chip, t: Target, u: Usb, p: seq<Byte>): (r: Usb)
    requires chip.Valid() && chip.Holds(t.mem) && Inv(u)
    ensures r.Sized()
  {
    var u := u.(rx := Nak);
    match u.fsm
    case DataOut =>
      var (ok, v) := RecvChunk(u, p);
      if ok && v.req.wLength - v.datasize <= PACKET then v.(fsm := LastDataOut) else v
    case LastDataOut =>
      var (ok, v) := RecvChunk(u, p);
      if !ok then v
      else
        var (handled, w) := Dispatch(chip, t, v);
        Answered(handled, w)
    case StatusOut => Completed(Rearm(u).(fsm := Idle)).(callback := false)
    case _ => StallTransaction(u)
  }

  /** A finished IN transaction: the hardware NAKs transmission, then `_usbd_control_in`. */
  function ControlIn(u: Usb): (r: Usb)
    requires Inv(u)
    ensures r.Sized()
  {
    var u := u.(tx := Nak);
    match u.fsm
    case DataIn => SendChunk(u)
    case LastDataIn => NakSet(u.(fsm := StatusOut), false)
    case StatusIn =>
      var v := Completed(u);
      if u.req.bmRequestType == 0 && u.req.bRequest == SET_ADDRESS then
        v.(daddr := u.req.wValue % 0x80 + ADDRESS_ENABLE, fsm := Idle)
      else v.(fsm := Idle)
    case _ => StallTransaction(u)
  }

  /** Bus reset: the hardware clears the endpoint registers, then endpoint 0 is set up again. The FSM
      variables keep their values. */
  function BusReset(u: Usb): (r: Usb)
    ensures |r.others| == 7
  {
    u.(tx := Nak, rx := Valid, daddr := ADDRESS_ENABLE, others := seq(7, _ => Endpoint(Disabled, Disabled)))
  }
}
