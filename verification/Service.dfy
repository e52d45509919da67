/** What a host is promised: for every request the reply, the refusal and the state it leads to, written down by
    the numbers on the wire (USB 2.0 section 9.4, DFU 1.1 section 6.1 as far as the firmware follows it), and
    the law that the device serves every request so, packet by packet. */
module Service {
  import opened Words
  import opened Flash
  import opened Commands
  import opened DfuRequests
  import opened Control
  import opened Device
  import opened Stages
  import opened Download
  import opened ReadBack

  /** Stalled, confirmed without data, or answered with these bytes. */
  datatype Outcome = Refused | Done | Data(bytes: seq<Byte>)

  // ---- The promise ---------------------------------------------------------------------------

  /** DFU_UPLOAD lets a block through. */
  predicate Readable(chip: Chip, t: Target, block: U16) {
    chip.upload && Accepts(chip, BlockAddress(t.addr, block), 4096)
  }

  function DfuOutcome(chip: Chip, t: Target, s: Byte, req: Setup): Outcome
    requires chip.Holds(t.mem)
  {
    match req.bRequest
    case 0 | 1 | 4 | 6 => Done
    case 2 =>
      if req.wValue == 0 then Data([0x00, 0x21, 0x41])
      else if Readable(chip, t, req.wValue) then Data(ReadRange(chip, t.mem, BlockAddress(t.addr, req.wValue), 4096))
      else Data([])
    case 3 => Data([if s == 10 then 14 else 0, if s == 3 then 100 else 0, 0, 0, DfuAfter(chip, t, s, req), 0])
    case 5 => Data([s])
    case _ => Refused
  }

  /** The number of the DFU state after a request. */
  function DfuAfter(chip: Chip, t: Target, s: Byte, req: Setup): Byte {
    match req.bRequest
    case 0 => 7
    case 1 => if req.wLength == 0 then 6 else 3
    case 2 => if req.wValue == 0 || Readable(chip, t, req.wValue) then 9 else 10
    case 3 => if s == 3 then 4 else if s == 6 then 7 else s
    case 4 => if s == 10 then 2 else s
    case 6 => 2
    case _ => s
  }

  /** A string descriptor: length, kind, and the characters as 16-bit units. */
  function StringBytes(s: seq<Byte>): (r: seq<Byte>)
    requires |s| <= 126
    ensures |r| == 2 * |s| + 2
  {
    [2 * |s| + 2, 3] + Units(s)
  }

  function Units(s: seq<Byte>): (r: seq<Byte>)
    ensures |r| == 2 * |s|
  {
    if s == [] then [] else [s[0], 0] + Units(s[1..])
  }

  function Descriptor(chip: Chip, req: Setup): Outcome
    requires chip.Valid()
  {
    var kind, index := req.wValue / 256, req.wValue % 256;
    if kind == 1 then
      Data([18, 1, 0, 2, 0, 0, 0, 64, 0x50, 0x1D, 0x31, 0x60, 0, 2, 1, 2, 3, 1])
    else if kind == 2 then
      Data([9, 2, 27, 0, 1, 1, 5, 0xC0, 0x32, 9, 4, 0, 0, 0, 0xFE, 1, 2, 4,
            9, 0x21, if chip.upload then 0x0B else 0x09, 255, 0, 0x00, 0x10, 0x1A, 0x01])
    else if kind == 3 && index == 0 then Data([4, 3, 0x09, 0x04])
    else if kind == 3 && 1 <= index <= 5 && req.wIndex == 0x0409 then Data(StringBytes(chip.strings[index - 1]))
    else Refused
  }

  function StandardOutcome(chip: Chip, u: Usb, req: Setup): Outcome
    requires chip.Valid() && u.Sized() && NamesEndpoint(req)
  {
    match (req.bmRequestType % 0x80, req.bRequest)
    case (0, 0) => Data([0, 0])
    case (0, 5) => if req.bmRequestType == 0 && req.wValue < 128 then Done else Refused
    case (0, 6) => Descriptor(chip, req)
    case (0, 8) => Data([1])
    case (0, 9) => if req.wValue == 1 then Done else Refused
    case (1, 10) => Data([1])
    case (1, 11) => Data([])
    case (2, 0) => Data([if Halted(u, req) then 1 else 0, 0])
    case (2, 1) => if req.wValue == 0 then Done else Refused
    case (2, 3) => if req.wValue == 0 then Done else Refused
    case _ => Refused
  }

  /** The endpoint direction that a request names is stalled. */
  predicate Halted(u: Usb, req: Setup)
    requires u.Sized() && req.wIndex % 0x80 < 8
  {
    var n, sends := req.wIndex % 0x80, req.wIndex % 0x100 >= 0x80;
    if n == 0 then (if sends then u.tx else u.rx) == Stall
    else (if sends then u.others[n - 1].tx else u.others[n - 1].rx) == Stall
  }

  function Promised(chip: Chip, t: Target, u: Usb, req: Setup): Outcome
    requires chip.Valid() && chip.Holds(t.mem) && u.Sized() && NamesEndpoint(req)
  {
    if req.bmRequestType % 0x80 == 0x21 then DfuOutcome(chip, t, u.dfu.state.Code(), req)
    else StandardOutcome(chip, u, req)
  }

  function StateAfter(chip: Chip, t: Target, s: Byte, req: Setup): Byte {
    if req.bmRequestType % 0x80 == 0x21 then DfuAfter(chip, t, s, req) else s
  }

  /** The other endpoints: SET_CONFIGURATION disables them; a halt or its end is for the direction named. */
  function OthersAfter(others: seq<Endpoint>, req: Setup): seq<Endpoint>
    requires |others| == 7 && NamesEndpoint(req)
  {
    var n, kind := req.wIndex % 0x80, req.bmRequestType % 0x80;
    if kind == 0 && req.bRequest == 9 && req.wValue == 1 then seq(7, _ => Endpoint(Disabled, Disabled))
    else if kind == 2 && req.bRequest in {1, 3} && req.wValue == 0 && n > 0 then
      var halt := req.bRequest == 3;
      others[n - 1 := if req.wIndex % 0x100 >= 0x80 then others[n - 1].(tx := if halt then Stall else Nak)
                      else others[n - 1].(rx := if halt then Stall else Valid)]
    else others
  }

  // ---- Every handler keeps it ----------------------------------------------------------------

  /** A request whose direction fits it: without data, or a read that its handler answers. */
  predicate Proper(req: Setup) {
    Covered(req) && (req.wLength == 0 || (req.DeviceToHost() && SetsLength(req)))
  }

  /** What a handler left, compared with an outcome. */
  predicate Left(o: Outcome, ok: bool, w: Usb) {
    && ok == !o.Refused?
    && (o.Data? ==> w.datasize == |o.bytes| <= |w.buffer| && w.buffer[..w.datasize] == o.bytes)
  }

  lemma AnswerLeft(u: Usb, data: seq<Byte>)
    requires u.Sized() && |data| <= TRANSFER_SIZE
    ensures Answer(u, data).0 && Left(Data(data), true, Answer(u, data).1)
  {
  }

  lemma StringSame(s: seq<Byte>)
    requires |s| <= 126
    ensures [2 * |s| + 2, 3] + Widen(s) == StringBytes(s)
  {
    WidenUnits(s);
    hide Widen, Units;
  }

  lemma {:induction false} WidenUnits(s: seq<Byte>)
    ensures Widen(s) == Units(s)
  {
    if s != [] {
      var n := |s| - 1;
      WidenUnits(s[..n]);
      UnitsSnoc(s[..n], s[n]);
      assert s == s[..n] + [s[n]];
    }
  }

  lemma {:induction false} UnitsSnoc(s: seq<Byte>, c: Byte)
    ensures Units(s + [c]) == Units(s) + [c, 0]
  {
    if s == [] {
      assert [c][1..] == [];
      assert Units([c]) == [c, 0] + Units([]);
    } else {
      UnitsSnoc(s[1..], c);
      assert (s + [c])[1..] == s[1..] + [c];
      assert (s + [c])[0] == s[0];
    }
  }

  lemma DescriptorLeft(chip: Chip, u: Usb)
    requires chip.Valid() && u.Sized()
    ensures var (ok, w) := GetDescriptor(chip, u); Left(Descriptor(chip, u.req), ok, w)
  {
    hide Answer, Left, StringBytes, Widen, ConfigDescriptor, Bytes16;
    var index := u.req.wValue % 0x100;
    LanguageBytes();
    FixedSame(chip);
    AnswerLeft(u, DEVICE_DESCRIPTOR);
    AnswerLeft(u, ConfigDescriptor(chip));
    AnswerLeft(u, [4, 3, 0x09, 0x04]);
    if 1 <= index <= 5 {
      StringSame(chip.strings[index - 1]);
      AnswerLeft(u, StringBytes(chip.strings[index - 1]));
    }
    RefusedLeft(GetDescriptor(chip, u).1);
  }

  lemma FixedSame(chip: Chip)
    ensures DEVICE_DESCRIPTOR == [18, 1, 0, 2, 0, 0, 0, 64, 0x50, 0x1D, 0x31, 0x60, 0, 2, 1, 2, 3, 1]
    ensures ConfigDescriptor(chip)
            == [9, 2, 27, 0, 1, 1, 5, 0xC0, 0x32, 9, 4, 0, 0, 0, 0xFE, 1, 2, 4,
                9, 0x21, if chip.upload then 0x0B else 0x09, 255, 0, 0x00, 0x10, 0x1A, 0x01]
  {
  }

  lemma LanguageBytes()
    ensures [4, 3] + Bytes16(LANGID_ENGLISH) == [4, 3, 0x09, 0x04]
  {
  }

  lemma RefusedLeft(w: Usb)
    ensures Left(Refused, false, w) && Left(Done, true, w)
  {
  }

  lemma DeviceLeft(chip: Chip, u: Usb)
    requires chip.Valid() && u.Sized() && u.req.bmRequestType % 0x80 == 0
    ensures var (ok, w) := DeviceRequest(chip, u); Left(StandardOutcome(chip, u, u.req), ok, w)
    ensures var w := DeviceRequest(chip, u).1; w.others == OthersAfter(u.others, u.req) && w.tx == u.tx && w.rx == u.rx
  {
    hide GetDescriptor, Descriptor, Left;
    DescriptorLeft(chip, u);
    AnswerLeft(u, [1]);
    AnswerLeft(u, [0, 0]);
    RefusedLeft(DeviceRequest(chip, u).1);
    DescriptorFrame(chip, u);
  }

  lemma DescriptorFrame(chip: Chip, u: Usb)
    requires chip.Valid() && u.Sized()
    ensures var w := GetDescriptor(chip, u).1; w.others == u.others && w.tx == u.tx && w.rx == u.rx
  {
    hide Overwrite, Widen, ConfigDescriptor;
  }

  lemma InterfaceLeft(chip: Chip, u: Usb)
    requires chip.Valid() && u.Sized() && u.req.bmRequestType % 0x80 == 1
    ensures var (ok, w) := InterfaceRequest(u);
            && Left(StandardOutcome(chip, u, u.req), ok, w)
            && w.others == OthersAfter(u.others, u.req) && w.tx == u.tx && w.rx == u.rx
  {
    hide Left;
    AnswerLeft(u, [1]);
    EmptyLeft(u);
    RefusedLeft(InterfaceRequest(u).1);
  }

  lemma EmptyLeft(u: Usb)
    requires u.Sized()
    ensures Left(Data([]), true, u.(datasize := 0))
  {
  }

  lemma EndpointLeft(chip: Chip, u: Usb)
    requires chip.Valid() && u.Sized() && u.req.bmRequestType % 0x80 == 2 && u.req.wIndex % 0x80 < 8
    ensures var (ok, w) := EndpointRequest(u);
            && Left(StandardOutcome(chip, u, u.req), ok, w) && w.others == OthersAfter(u.others, u.req)
            && (u.req.bRequest == 0 ==> w.tx == u.tx && w.rx == u.rx)
  {
    var addr := u.req.wIndex % 0x100;
    ModMod(u.req.wIndex);
    HaltedSame(u, addr);
    HaltOthers(u, addr, u.req.bRequest == SET_FEATURE);
    hide Left, StallSet, IsStalled, Halted;
    AnswerLeft(u, [if IsStalled(u, addr) then 1 else 0, 0]);
    RefusedLeft(EndpointRequest(u).1);
  }

  lemma HaltedSame(u: Usb, addr: Byte)
    requires u.Sized() && u.req.wIndex % 0x80 < 8 && addr == u.req.wIndex % 0x100 && addr % 0x80 == u.req.wIndex % 0x80
    ensures Halted(u, u.req) == IsStalled(u, addr)
  {
  }

  lemma HaltOthers(u: Usb, addr: Byte, halt: bool)
    requires u.Sized() && addr % 0x80 < 8
    ensures var n := addr % 0x80;
            StallSet(u, addr, halt).others
            == if n == 0 then u.others
               else u.others[n - 1 := if addr >= 0x80 then u.others[n - 1].(tx := if halt then Stall else Nak)
                                      else u.others[n - 1].(rx := if halt then Stall else Valid)]
  {
  }

  lemma PrefixWritten(buffer: seq<Byte>, data: seq<Byte>)
    requires |data| <= |buffer|
    ensures Overwrite(buffer, 0, data)[..|data|] == data
  {
  }

  lemma DfuLeft(chip: Chip, t: Target, d: Dfu, req: Setup, buffer: seq<Byte>)
    requires chip.Valid() && chip.Holds(t.mem) && |buffer| == TRANSFER_SIZE && |d.prog.buf| == TRANSFER_SIZE
    requires req.bmRequestType % 0x80 == 0x21 && Proper(req)
    ensures var y, o := DfuRequest(chip, t, d, req, buffer, req.wLength), DfuOutcome(chip, t, d.state.Code(), req);
            && (y.code == NextCallback <==> o.Refused?) && (y.code != NotSupported)
            && (o.Data? ==> y.len == |o.bytes| <= |y.buffer| && y.buffer[..y.len] == o.bytes)
            && y.dfu.prog == d.prog && y.dfu.state.Code() == DfuAfter(chip, t, d.state.Code(), req)
  {
    var s := d.state.Code();
    PrefixWritten(buffer, [0x00, 0x21, 0x41]);
    PrefixWritten(buffer, [s]);
    PrefixWritten(buffer, StatusReply(d.state));
    if req.wValue != 0 {
      PrefixWritten(buffer, ReadRange(chip, t.mem, BlockAddress(t.addr, req.wValue), 4096));
    }
    hide Overwrite, ReadRange, BlockAddress, Accepts;
  }

  /** Every request is handled as promised. */
  lemma DispatchLeft(chip: Chip, t: Target, u: Usb)
    requires chip.Valid() && chip.Holds(t.mem) && u.Sized() && Proper(u.req)
    ensures var (ok, w) := Dispatch(chip, t, u);
            && Left(Promised(chip, t, u, u.req), ok, w)
            && w.dfu.prog == u.dfu.prog && w.others == OthersAfter(u.others, u.req)
            && w.dfu.state.Code() == StateAfter(chip, t, u.dfu.state.Code(), u.req)
            && (u.req.bmRequestType % 0x80 != 2 ==> w.tx == u.tx && w.rx == u.rx)
  {
    if u.req.ForDfu() {
      DfuLeft(chip, t, u.dfu, u.req, u.buffer);
      hide DfuRequest, DfuOutcome, DfuAfter, Proper, Covered;
    } else {
      StandardLeft(chip, u);
      hide StandardRequest, StandardOutcome, OthersAfter, Proper, Covered;
    }
  }

  lemma StandardLeft(chip: Chip, u: Usb)
    requires chip.Valid() && u.Sized() && NamesEndpoint(u.req) && !u.req.ForDfu()
    ensures var (ok, w) := StandardRequest(chip, u);
            && Left(StandardOutcome(chip, u, u.req), ok, w) && w.others == OthersAfter(u.others, u.req)
            && (u.req.bmRequestType % 0x80 != 2 ==> w.tx == u.tx && w.rx == u.rx)
  {
    hide Left;
    RefusedLeft(u);
    if u.req.bmRequestType % 0x80 == 0 {
      DeviceLeft(chip, u);
    } else if u.req.bmRequestType % 0x80 == 1 {
      InterfaceLeft(chip, u);
    } else if u.req.bmRequestType % 0x80 == 2 {
      EndpointLeft(chip, u);
    }
    hide DeviceRequest, InterfaceRequest, EndpointRequest, Descriptor, Halted;
  }

  // ---- On packets ----------------------------------------------------------------------------

  /** The empty packet that ends a request without data is armed. */
  predicate Confirming(u: Usb) {
    u.fsm == StatusIn && u.tx == Valid && u.packet == []
  }

  predicate Stalled(u: Usb) {
    u.fsm == Idle && u.tx == Stall && u.rx == Stall
  }

  /** What the host finds on the bus after its setup packet. */
  predicate Meets(o: Outcome, wLength: nat, u: Usb) {
    match o
    case Refused => Stalled(u)
    case Done => Confirming(u)
    case Data(bytes) => if wLength == 0 then Confirming(u) else Sends(u, bytes[..Min(|bytes|, wLength)])
  }

  lemma RequestDecodes(req: Setup)
    requires Covered(req)
    ensures var p := Encode(req); Whole(p) && Decode(p[..8]) == req && CoveredEvent(SetupPacket(p))
  {
    DecodeEncode(req);
    assert Encode(req)[..8] == Encode(req);
    hide Encode, Decode, Covered;
  }

  lemma SetupIsRead(chip: Chip, t: Target, u: Usb, req: Setup)
    requires chip.Valid() && chip.Holds(t.mem) && Inv(u) && Proper(req)
    ensures Whole(Encode(req)) && CoveredEvent(SetupPacket(Encode(req)))
    ensures var r := Dispatch(chip, t, AtRequest(u, req));
            && (r.0 ==> Min(r.1.datasize, req.wLength) <= TRANSFER_SIZE)
            && r.1.Sized() && r.1.dataoff == 0 && r.1.req == req && r.1.daddr == u.daddr && r.1.tx != Valid
            && Inv(r.1.(fsm := Idle))
            && ControlSetup(chip, t, u, Encode(req)) == if r.0 then StartReply(r.1) else StallTransaction(r.1)
  {
    RequestDecodes(req);
    ReadFromSetup(chip, t, u, req);
    hide ControlSetup, Encode, Decode, Received, Dispatch, StartReply, Whole;
    var v := AtRequest(u, req);
    DispatchRelates(chip, t, v);
    ReplyFits(chip, t, v);
    hide Covered, SetsLength;
  }

  lemma ReadFromSetup(chip: Chip, t: Target, u: Usb, req: Setup)
    requires chip.Valid() && chip.Holds(t.mem) && u.Sized() && Proper(req)
    ensures Whole(Encode(req)) && Decode(Encode(req)[..8]) == req
    ensures ControlSetup(chip, t, u, Encode(req)) == SetupRead(chip, t, AtRequest(u, req))
  {
    RequestDecodes(req);
    hide Encode, Decode, Dispatch, SetupRead, SetupWrite, Whole, SetsLength;
  }

  lemma ReplyMeets(o: Outcome, w: Usb)
    requires Inv(w.(fsm := Idle)) && w.dataoff == 0 && w.tx != Valid && Left(o, true, w)
    requires Min(w.datasize, w.req.wLength) <= TRANSFER_SIZE && (o.Done? ==> w.req.wLength == 0)
    ensures Meets(o, w.req.wLength, StartReply(w))
  {
    if w.req.wLength != 0 {
      ReplyIsCut(w);
      var n := Min(w.datasize, w.req.wLength);
      assert w.buffer[..n] == o.bytes[..n];
      hide StartReply, Left, Inv, Armed, Sending, NeedsZlp;
      CutSends(StartReply(w), w.buffer[..n], w.req.wLength);
    }
  }

  /** The device serves every request as promised: reply, confirmation or stall, and the states it leads to. */
  lemma Serves(chip: Chip, d: Dev, req: Setup)
    requires Ready(chip, d) && Proper(req)
    ensures var e := SetupPacket(Encode(req)); var r := Step(chip, d, e);
            && CoveredEvent(e) && r.tgt == d.tgt && r.usb.daddr == d.usb.daddr && r.usb.req == req
            && Meets(Promised(chip, d.tgt, AtRequest(d.usb, req), req), req.wLength, r.usb)
            && r.usb.dfu.prog == d.usb.dfu.prog && r.usb.others == OthersAfter(d.usb.others, req)
            && r.usb.dfu.state.Code() == StateAfter(chip, d.tgt, d.usb.dfu.state.Code(), req)
            && (req.bmRequestType % 0x80 != 2 ==> r.usb.rx != Valid)
  {
    hide Encode, Dispatch, Promised, OthersAfter, StateAfter, StartReply, Meets, Proper, CoveredEvent, ControlSetup;
    SetupIsRead(chip, d.tgt, d.usb, req);
    ProperSized(d.usb, req);
    DispatchLeft(chip, d.tgt, AtRequest(d.usb, req));
    var r := Dispatch(chip, d.tgt, AtRequest(d.usb, req));
    var o := Promised(chip, d.tgt, AtRequest(d.usb, req), req);
    if r.0 {
      DoneHasNoData(chip, d.tgt, AtRequest(d.usb, req), req);
      ReplyMeets(o, r.1);
      StartReplyKeeps(r.1);
    } else {
      RefusedMeets(o, r.1, req.wLength);
    }
    hide Inv, Left;
  }

  lemma ProperSized(u: Usb, req: Setup)
    requires Inv(u) && Proper(req)
    ensures AtRequest(u, req).Sized() && NamesEndpoint(req)
  {
  }

  lemma DoneHasNoData(chip: Chip, t: Target, u: Usb, req: Setup)
    requires chip.Valid() && chip.Holds(t.mem) && u.Sized() && Proper(req)
    ensures Promised(chip, t, u, req).Done? ==> req.wLength == 0
  {
    hide ReadRange, StringBytes, BlockAddress;
  }

  lemma RefusedMeets(o: Outcome, w: Usb, wLength: nat)
    requires Left(o, false, w)
    ensures Meets(o, wLength, StallTransaction(w))
  {
  }

  /** Once the confirmation is taken the transfer is over; nothing else moves, unless a status query without data
      found a command busy. */
  lemma ConfirmationTaken(chip: Chip, d: Dev)
    requires Good(chip, d) && Alive(d) && Confirming(d.usb) && !(d.usb.callback && d.usb.dfu.state == DnBusy)
    ensures var r := Step(chip, d, InTaken);
            r.tgt == d.tgt && r.usb == d.usb.(fsm := Idle, tx := Nak, daddr := r.usb.daddr)
    ensures d.usb.req.bRequest != 5 ==> Step(chip, d, InTaken).usb.daddr == d.usb.daddr
  {
    hide SendChunk, Covered;
  }

  // ---- Addresses -----------------------------------------------------------------------------

  function AddressSetup(a: U16): Setup {
    Setup(0, 5, a, 0, 0)
  }

  /** SET_ADDRESS is served for every address below 128: confirmed, and in force once the confirmation has been
      taken, not before. Any other is refused. */
  lemma AddressServed(chip: Chip, d: Dev, a: U16)
    requires Ready(chip, d)
    ensures var e := SetupPacket([0, 5, a % 256, a / 256, 0, 0, 0, 0]); var r := Step(chip, d, e);
            && CoveredRun([e, InTaken]) && r.tgt == d.tgt && r.usb.daddr == d.usb.daddr
            && (a < 128 ==> Confirming(r.usb) && Run(chip, d, [e, InTaken]).usb.daddr == 0x80 + a
                            && Run(chip, d, [e, InTaken]).usb.fsm == Idle)
            && (a >= 128 ==> Stalled(r.usb) && Run(chip, d, [e, InTaken]) == r)
  {
    hide *;
    var e := SetupPacket(Encode(AddressSetup(a)));
    AddressBytes(a);
    AddressAnswered(chip, d, a);
    StepKeepsGood(chip, d, e);
    var r := Step(chip, d, e);
    assert [e, InTaken] == [e] + [InTaken];
    CoveredPair(e);
    RunCons(chip, d, e, [InTaken]);
    RunOne(chip, r, InTaken);
    AddressTaken(chip, r, a);
  }

  lemma CoveredPair(e: Event)
    requires CoveredEvent(e)
    ensures CoveredEvent(InTaken) && CoveredRun([e, InTaken])
  {
  }

  lemma AddressAnswered(chip: Chip, d: Dev, a: U16)
    requires Ready(chip, d)
    ensures var e := SetupPacket(Encode(AddressSetup(a))); var r := Step(chip, d, e);
            && Good(chip, d) && CoveredEvent(e) && r.tgt == d.tgt && r.usb.daddr == d.usb.daddr && Alive(r)
            && r.usb.req == AddressSetup(a) && if a < 128 then Confirming(r.usb) else Stalled(r.usb)
  {
    AddressPromised(chip, d.tgt, d.usb, a);
    Serves(chip, d, AddressSetup(a));
    AliveByCode(Step(chip, d, SetupPacket(Encode(AddressSetup(a)))), d);
    hide Encode, Step, Inv, CoveredEvent, Promised, StateAfter, OthersAfter, AtRequest, AddressSetup;
    hide Covered, SetsLength;
  }

  lemma AliveByCode(r: Dev, d: Dev)
    ensures Alive(d) && r.usb.dfu.state.Code() == d.usb.dfu.state.Code() ==> Alive(r)
  {
  }

  lemma AddressBytes(a: U16)
    ensures Encode(AddressSetup(a)) == [0, 5, a % 256, a / 256, 0, 0, 0, 0]
  {
    EncodeBytes(AddressSetup(a));
  }

  lemma AddressPromised(chip: Chip, t: Target, u: Usb, a: U16)
    requires chip.Valid() && chip.Holds(t.mem) && Inv(u)
    ensures var req := AddressSetup(a);
            && Proper(req) && NamesEndpoint(req) && req.wLength == 0 && AtRequest(u, req).Sized()
            && Promised(chip, t, AtRequest(u, req), req) == (if a < 128 then Done else Refused)
            && StateAfter(chip, t, u.dfu.state.Code(), req) == u.dfu.state.Code()
  {
  }

  lemma AddressTaken(chip: Chip, d: Dev, a: U16)
    requires Good(chip, d) && Alive(d) && d.usb.req == AddressSetup(a) && CoveredEvent(InTaken)
    ensures a < 128 && Confirming(d.usb) ==>
              var r := Step(chip, d, InTaken); r.usb.daddr == 0x80 + a && r.usb.fsm == Idle
    ensures Stalled(d.usb) ==> Step(chip, d, InTaken) == d
  {
    hide SendChunk;
  }
}
