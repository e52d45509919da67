/** The protected build (ENABLE_SAFEWRITE): what the user area held before does not outlive the first
    executed erase or block command, whatever traffic comes before and after. */
module SafeWrite {
  import opened Words
  import opened Flash
  import opened Commands
  import opened CommandRuns
  import opened DfuRequests
  import opened Control
  import opened Device
  import opened Stages
  import opened Download
  import opened ReadBack
  import opened Monitor

  // ---- Control states that differ in read-back bytes -----------------------------------------

  /** Equal but for the bytes on their way to the host. */
  predicate ButForBytes(u: Usb, v: Usb) {
    u.Sized() && v.Sized() && v == u.(buffer := v.buffer, packet := v.packet)
  }

  /** And, in the data stage of a write, with the same bytes received. */
  predicate SameControl(u: Usb, v: Usb) {
    && ButForBytes(u, v)
    && (Receiving(u) ==> u.datasize <= TRANSFER_SIZE && u.buffer[..u.datasize] == v.buffer[..u.datasize])
  }

  lemma DfuAlike(chip: Chip, t: Target, s: Target, d: Dfu, req: Setup, b: seq<Byte>, c: seq<Byte>)
    requires chip.Holds(t.mem) && chip.Holds(s.mem) && t.addr == s.addr
    requires |b| == |c| == TRANSFER_SIZE && |d.prog.buf| == TRANSFER_SIZE
    requires req.bRequest == DFU_DNLOAD ==> var n := Min(req.wLength, TRANSFER_SIZE); b[..n] == c[..n]
    ensures var y, z := DfuRequest(chip, t, d, req, b, req.wLength), DfuRequest(chip, s, d, req, c, req.wLength);
            z == y.(buffer := z.buffer)
  {
    hide Overwrite, ReadRange, StatusReply, BlockAddress, Accepts;
  }

  predicate SameResult(y: (bool, Usb), z: (bool, Usb)) {
    y.0 == z.0 && ButForBytes(y.1, z.1)
  }

  lemma AnswerAlike(u: Usb, v: Usb, data: seq<Byte>)
    requires ButForBytes(u, v) && |data| <= TRANSFER_SIZE
    ensures SameResult(Answer(u, data), Answer(v, data))
  {
    hide Overwrite;
  }

  lemma DescriptorAlike(chip: Chip, u: Usb, v: Usb)
    requires chip.Valid() && ButForBytes(u, v)
    ensures SameResult(GetDescriptor(chip, u), GetDescriptor(chip, v))
  {
    hide Overwrite, Widen, ConfigDescriptor, Bytes16;
  }

  lemma DeviceAlike(chip: Chip, u: Usb, v: Usb)
    requires chip.Valid() && ButForBytes(u, v)
    ensures SameResult(DeviceRequest(chip, u), DeviceRequest(chip, v))
  {
    hide GetDescriptor, Answer;
    DescriptorAlike(chip, u, v);
    AnswerAlike(u, v, [1]);
    AnswerAlike(u, v, [0, 0]);
  }

  lemma InterfaceAlike(u: Usb, v: Usb)
    requires ButForBytes(u, v)
    ensures SameResult(InterfaceRequest(u), InterfaceRequest(v))
  {
    hide Answer;
    AnswerAlike(u, v, [1]);
    AnswerAlike(u, v, [0, 0]);
  }

  lemma HaltAlike(u: Usb, v: Usb, addr: Byte, stall: bool)
    requires ButForBytes(u, v) && addr % 0x80 < 8
    ensures ButForBytes(StallSet(u, addr, stall), StallSet(v, addr, stall))
    ensures IsStalled(u, addr) == IsStalled(v, addr)
  {
  }

  lemma EndpointAlike(u: Usb, v: Usb)
    requires ButForBytes(u, v) && u.req.wIndex % 0x80 < 8
    ensures SameResult(EndpointRequest(u), EndpointRequest(v))
  {
    var addr := u.req.wIndex % 0x100;
    ModMod(u.req.wIndex);
    HaltAlike(u, v, addr, u.req.bRequest == SET_FEATURE);
    hide Answer, StallSet, IsStalled, ButForBytes;
    AnswerAlike(u, v, [if IsStalled(u, addr) then 1 else 0, 0]);
    assert v.req == u.req by { SameRequest(u, v); }
  }

  lemma SameRequest(u: Usb, v: Usb)
    requires ButForBytes(u, v)
    ensures v.req == u.req
  {
  }

  lemma StandardAlike(chip: Chip, u: Usb, v: Usb)
    requires chip.Valid() && NamesEndpoint(u.req) && ButForBytes(u, v)
    ensures SameResult(StandardRequest(chip, u), StandardRequest(chip, v))
  {
    hide DeviceRequest, InterfaceRequest, EndpointRequest;
    DeviceAlike(chip, u, v);
    InterfaceAlike(u, v);
    if u.req.bmRequestType % 0x80 == 2 {
      EndpointAlike(u, v);
    }
  }

  /** The result of a request, and all it leaves but for the reply bytes, does not depend on the flash or on
      what the control buffer held, save for the data of a DNLOAD. */
  lemma DispatchAlike(chip: Chip, t: Target, s: Target, u: Usb, v: Usb)
    requires chip.Valid() && chip.Holds(t.mem) && chip.Holds(s.mem) && t.addr == s.addr
    requires NamesEndpoint(u.req) && ButForBytes(u, v)
    requires IsDownload(u.req) ==> var n := Min(u.req.wLength, TRANSFER_SIZE); u.buffer[..n] == v.buffer[..n]
    ensures SameResult(Dispatch(chip, t, u), Dispatch(chip, s, v))
  {
    if u.req.ForDfu() {
      DfuAlike(chip, t, s, u.dfu, u.req, u.buffer, v.buffer);
      var y := DfuRequest(chip, t, u.dfu, u.req, u.buffer, u.req.wLength);
      var z := DfuRequest(chip, s, v.dfu, v.req, v.buffer, v.req.wLength);
      hide DfuRequest;
      StandardAlike(chip, u.(dfu := y.dfu, buffer := y.buffer, datasize := y.len, callback := u.callback || y.callback),
                    v.(dfu := z.dfu, buffer := z.buffer, datasize := z.len, callback := v.callback || z.callback));
    } else {
      StandardAlike(chip, u, v);
    }
    hide StandardRequest;
  }

  lemma ReplyAlike(u: Usb, v: Usb)
    requires ButForBytes(u, v) && u.dataoff == 0 && Min(u.datasize, u.req.wLength) <= TRANSFER_SIZE
    ensures ButForBytes(StartReply(u), StartReply(v)) && !Receiving(StartReply(u))
  {
    hide NeedsZlp;
    var n := Min(u.datasize, u.req.wLength);
    if u.req.wLength != 0 {
      SendAlike(u.(datasize := n, needsZlp := NeedsZlp(n, u.req.wLength)),
                v.(datasize := n, needsZlp := NeedsZlp(n, u.req.wLength)));
      hide SendChunk;
    }
  }

  lemma SendAlike(u: Usb, v: Usb)
    requires ButForBytes(u, v) && u.dataoff + u.datasize <= TRANSFER_SIZE
    ensures ButForBytes(SendChunk(u), SendChunk(v)) && !Receiving(SendChunk(u))
  {
    hide WritePacket;
    var n := Min(PACKET, u.datasize);
    WriteAlike(u, v, u.buffer[u.dataoff..u.dataoff + n], v.buffer[u.dataoff..u.dataoff + n]);
  }

  lemma WriteAlike(u: Usb, v: Usb, a: seq<Byte>, b: seq<Byte>)
    requires ButForBytes(u, v)
    ensures ButForBytes(WritePacket(u, a), WritePacket(v, b))
    ensures WritePacket(u, a) == u.(packet := WritePacket(u, a).packet, tx := Valid)
  {
  }

  /** DNLOAD data goes from host to device. */
  predicate HostWrites(e: Event) {
    e.SetupPacket? && Whole(e.bytes) && IsDownload(Decode(e.bytes[..8])) ==>
      !Decode(e.bytes[..8]).DeviceToHost()
  }

  lemma ReadAlike(chip: Chip, t: Target, s: Target, u: Usb, v: Usb)
    requires chip.Valid() && chip.Holds(t.mem) && chip.Holds(s.mem) && t.addr == s.addr
    requires Covered(u.req) && (u.req.DeviceToHost() || u.req.wLength == 0) && !IsDownload(u.req)
    requires ButForBytes(u, v)
    ensures SameControl(SetupRead(chip, t, u), SetupRead(chip, s, v))
  {
    hide Dispatch, StartReply, IsDownload;
    var u', v' := u.(dataoff := 0), v.(dataoff := 0);
    DispatchAlike(chip, t, s, u', v');
    ReplyFits(chip, t, u');
    if Dispatch(chip, t, u').0 {
      ReplyAlike(Dispatch(chip, t, u').1, Dispatch(chip, s, v').1);
    }
  }

  lemma SetupAlike(chip: Chip, t: Target, s: Target, u: Usb, v: Usb, p: seq<Byte>)
    requires chip.Valid() && chip.Holds(t.mem) && chip.Holds(s.mem) && t.addr == s.addr
    requires ButForBytes(u, v) && CoveredEvent(SetupPacket(p)) && HostWrites(SetupPacket(p))
    ensures SameControl(ControlSetup(chip, t, u, p), ControlSetup(chip, s, v, p))
  {
    hide SetupRead, Covered, IsDownload, Received;
    ReceivedAlike(u, v, p);
    if Whole(p) {
      var u' := NakSet(u.(tx := Nak, callback := false), true).(req := Received(u, p));
      var v' := NakSet(v.(tx := Nak, callback := false), true).(req := Received(v, p));
      if u'.req.DeviceToHost() || u'.req.wLength == 0 {
        NoDownload(p);
        ReadAlike(chip, t, s, u', v');
        hide SameControl;
      }
    }
  }

  lemma ReceivedAlike(u: Usb, v: Usb, p: seq<Byte>)
    requires ButForBytes(u, v)
    ensures Received(u, p) == Received(v, p)
  {
    hide Overwrite, Encode, Decode;
  }

  lemma NoDownload(p: seq<Byte>)
    requires Whole(p) && HostWrites(SetupPacket(p))
    requires Decode(p[..8]).DeviceToHost() || Decode(p[..8]).wLength == 0
    ensures !IsDownload(Decode(p[..8]))
  {
    hide Decode;
  }

  lemma ChunkAlike(u: Usb, v: Usb, p: seq<Byte>)
    requires SameControl(u, v) && Receiving(u) && u.datasize < u.req.wLength <= TRANSFER_SIZE
    ensures var y, z := RecvChunk(u, p), RecvChunk(v, p);
            && y.0 == z.0 && ButForBytes(y.1, z.1) && y.1.datasize <= TRANSFER_SIZE
            && y.1.buffer[..y.1.datasize] == z.1.buffer[..y.1.datasize]
  {
    var size := Min(|p| % 0x400, Expected(u));
    assert Overwrite(u.buffer, u.datasize, p[..size])[..u.datasize + size]
           == Overwrite(v.buffer, u.datasize, p[..size])[..u.datasize + size];
    hide Overwrite;
  }

  lemma LastAlike(chip: Chip, t: Target, s: Target, u: Usb, v: Usb, p: seq<Byte>)
    requires chip.Valid() && chip.Holds(t.mem) && chip.Holds(s.mem) && t.addr == s.addr
    requires Inv(u) && Inv(v) && SameControl(u, v) && u.fsm == LastDataOut
    ensures SameControl(ControlOut(chip, t, u, p), ControlOut(chip, s, v, p))
  {
    hide Dispatch;
    LastChunkWhole(u, p);
    hide RecvChunk;
    ChunkAlike(u.(rx := Nak), v.(rx := Nak), p);
    RecvChunkKeeps(u.(rx := Nak), p);
    var (ok, y) := RecvChunk(u.(rx := Nak), p);
    var z := RecvChunk(v.(rx := Nak), p).1;
    hide Answered;
    if ok {
      DispatchAlike(chip, t, s, y, z);
      AnsweredAlike(Dispatch(chip, t, y), Dispatch(chip, s, z));
      hide Covered, SameControl, ButForBytes;
    } else {
      hide Covered;
    }
  }

  lemma AnsweredAlike(y: (bool, Usb), z: (bool, Usb))
    requires SameResult(y, z)
    ensures SameControl(Answered(y.0, y.1), Answered(z.0, z.1))
  {
  }

  lemma LastChunkWhole(u: Usb, p: seq<Byte>)
    requires Inv(u) && u.fsm == LastDataOut
    ensures var (ok, v) := RecvChunk(u.(rx := Nak), p);
            ok ==> v.datasize == u.req.wLength
  {
  }

  lemma MoreAlike(chip: Chip, t: Target, s: Target, u: Usb, v: Usb, p: seq<Byte>)
    requires chip.Valid() && chip.Holds(t.mem) && chip.Holds(s.mem)
    requires Inv(u) && Inv(v) && SameControl(u, v) && u.fsm == DataOut
    ensures SameControl(ControlOut(chip, t, u, p), ControlOut(chip, s, v, p))
  {
    hide Dispatch, RecvChunk;
    ChunkAlike(u.(rx := Nak), v.(rx := Nak), p);
    RecvChunkKeeps(u.(rx := Nak), p);
    hide Covered;
  }

  lemma OutAlike(chip: Chip, t: Target, s: Target, u: Usb, v: Usb, p: seq<Byte>)
    requires chip.Valid() && chip.Holds(t.mem) && chip.Holds(s.mem) && t.addr == s.addr
    requires Inv(u) && Inv(v) && SameControl(u, v)
    ensures SameControl(ControlOut(chip, t, u, p), ControlOut(chip, s, v, p))
  {
    if u.fsm == LastDataOut {
      LastAlike(chip, t, s, u, v, p);
    } else if u.fsm == DataOut {
      MoreAlike(chip, t, s, u, v, p);
    } else {
      hide Dispatch, RecvChunk, Covered;
    }
  }

  lemma InAlike(u: Usb, v: Usb)
    requires Inv(u) && Inv(v) && SameControl(u, v)
    ensures SameControl(ControlIn(u), ControlIn(v))
  {
    hide SendChunk, Covered;
    if u.fsm == DataIn {
      SendAlike(u.(tx := Nak), v.(tx := Nak));
    }
  }

  // ---- Twins ---------------------------------------------------------------------------------

  /** Two devices that differ at most in an unwiped user area and in bytes read back from it. */
  ghost predicate Twins(chip: Chip, d: Dev, e: Dev) {
    Good(chip, d) && Good(chip, e) && SameControl(d.usb, e.usb) && Alike(chip, d.tgt, e.tgt)
  }

  lemma UsbStepAlike(chip: Chip, d: Dev, e: Dev, ev: Event)
    requires Twins(chip, d, e) && Completes(d.usb, ev) && CoveredEvent(ev) && HostWrites(ev)
    ensures Completes(e.usb, ev)
    ensures SameControl(UsbStep(chip, d.tgt, d.usb, ev), UsbStep(chip, e.tgt, e.usb, ev))
  {
    hide ControlSetup, ControlOut, ControlIn, Inv, Covered;
    match ev
    case Reset =>
    case SetupPacket(p) => SetupAlike(chip, d.tgt, e.tgt, d.usb, e.usb, p);
    case OutPacket(p) => OutAlike(chip, d.tgt, e.tgt, d.usb, e.usb, p);
    case InTaken => InAlike(d.usb, e.usb);
  }

  lemma StepKeepsTwins(chip: Chip, d: Dev, e: Dev, ev: Event)
    requires chip.safeWrite && Twins(chip, d, e) && CoveredEvent(ev) && HostWrites(ev)
    ensures Twins(chip, Step(chip, d, ev), Step(chip, e, ev))
    ensures d.tgt.wiped ==> Step(chip, d, ev).tgt.wiped
    ensures Alive(d) == Alive(e) && Executes(d.usb, ev) == Executes(e.usb, ev) && d.usb.dfu == e.usb.dfu
    ensures Alive(d) && Executes(d.usb, ev) && d.usb.dfu.prog.TouchesFlash() ==> Step(chip, d, ev).tgt.wiped
  {
    hide UsbStep, Alike, Apply, Inv;
    StepKeepsGood(chip, d, ev);
    StepKeepsGood(chip, e, ev);
    assert Completes(d.usb, ev) == Completes(e.usb, ev);
    if Alive(d) && Completes(d.usb, ev) {
      UsbStepAlike(chip, d, e, ev);
      if Executes(d.usb, ev) {
        PendingValid(d.usb);
        ApplyKeepsAlike(chip, d.tgt, e.tgt, d.usb.dfu.prog);
      }
    }
  }

  lemma PendingValid(u: Usb)
    requires Inv(u) && u.dfu.state.Pending()
    ensures u.dfu.prog.Valid()
  {
  }

  /** The wipe hides the user area, in every protected build: two devices with the same host events and
      flashes that differ in the user area only execute the same commands, and from the first executed erase
      or block command on their targets are equal, flash included. */
  lemma {:induction false} WipeHidesUserArea(chip: Chip, d: Dev, e: Dev, es: seq<Event>)
    requires chip.safeWrite && Twins(chip, d, e) && CoveredRun(es)
    requires forall ev :: ev in es ==> HostWrites(ev)
    ensures Twins(chip, Run(chip, d, es), Run(chip, e, es))
    ensures Executed(chip, d, es) == Executed(chip, e, es)
    ensures d.tgt.wiped ==> Run(chip, d, es).tgt.wiped
    ensures (exists c :: c in Executed(chip, d, es) && c.TouchesFlash())
            ==> Run(chip, d, es).tgt.wiped && Run(chip, d, es).tgt == Run(chip, e, es).tgt
  {
    hide Step, Completes, Executes, CommandRuns.Alike, SameControl, HostWrites;
    if es != [] {
      var init, ev := es[..|es| - 1], es[|es| - 1];
      WipeHidesUserArea(chip, d, e, init);
      StepKeepsTwins(chip, Run(chip, d, init), Run(chip, e, init), ev);
    }
    if Run(chip, d, es).tgt.wiped {
      WipedAlikeEqual(chip, Run(chip, d, es).tgt, Run(chip, e, es).tgt);
    }
  }

  lemma WipedAlikeEqual(chip: Chip, t: Target, u: Target)
    requires Alike(chip, t, u) && t.wiped
    ensures t == u
  {
  }

  // ---- Why the direction matters -------------------------------------------------------------

  /** A DNLOAD with data that asks the device to send. */
  function WrongDirection(block: U16, iface: U16): Setup {
    Setup(0xA1, DFU_DNLOAD, block, iface, TRANSFER_SIZE)
  }

  lemma WrongDirectionDecodes(block: U16, iface: U16)
    ensures var p := Encode(WrongDirection(block, iface));
            && Whole(p) && Decode(p[..8]) == WrongDirection(block, iface)
            && CoveredEvent(SetupPacket(p)) && !HostWrites(SetupPacket(p))
  {
    var p := Encode(WrongDirection(block, iface));
    DecodeEncode(WrongDirection(block, iface));
    assert p[..8] == p;
    hide Encode, Decode;
  }

  lemma UploadLeaves(chip: Chip, t: Target, u: Usb, p: seq<Byte>)
    requires chip.Valid() && chip.Holds(t.mem) && Inv(u) && u.dfu.state != Manifest
    requires Whole(p) && CoveredEvent(SetupPacket(p)) && chip.upload && AsksUpload(Decode(p[..8]))
    requires InUserArea(chip, BlockAddress(t.addr, Decode(p[..8]).wValue), TRANSFER_SIZE)
    ensures var at, v := BlockAddress(t.addr, Decode(p[..8]).wValue) - FLASH_BASE, ControlSetup(chip, t, u, p);
            && at + TRANSFER_SIZE <= |t.mem| && v.buffer == t.mem[at..at + TRANSFER_SIZE]
            && v.dfu.state != Manifest && v.rx != Disabled
  {
    hide Decode, BlockAddress, Received, StartReply, Dispatch, Covered, InUserArea;
    var v := AtDispatch(u, p);
    DispatchUpload(chip, t, v);
    DispatchRelates(chip, t, v);
    var w := Dispatch(chip, t, v).1;
    StartReplyKeeps(w);
    assert ControlSetup(chip, t, u, p) == StartReply(w);
    hide Covered, NamesEndpoint, ControlSetup, AtDispatch, Inv;
  }

  /** After an upload's setup packet the control buffer is that part of the flash. */
  lemma UploadFills(chip: Chip, d: Dev, block: U16, iface: U16)
    requires Good(chip, d) && Alive(d) && d.usb.rx != Disabled && chip.upload && block != 0
    requires InUserArea(chip, BlockAddress(d.tgt.addr, block), TRANSFER_SIZE)
    ensures var e, at := SetupPacket(Encode(UploadSetup(block, iface))), BlockAddress(d.tgt.addr, block) - FLASH_BASE;
            && CoveredEvent(e) && at + TRANSFER_SIZE <= |d.tgt.mem|
            && var r := Step(chip, d, e);
               && r.tgt == d.tgt && Alive(r) && r.usb.rx != Disabled
               && r.usb.buffer == d.tgt.mem[at..at + TRANSFER_SIZE]
  {
    var p := Encode(UploadSetup(block, iface));
    UploadDecodes(block, iface);
    hide CoveredEvent, Covered, Whole, ControlSetup, Encode, Decode, BlockAddress, Inv, InUserArea;
    UploadLeaves(chip, d.tgt, d.usb, p);
  }

  /** A DNLOAD in the wrong direction records whatever the control buffer holds. */
  lemma WrongDirectionRecords(chip: Chip, d: Dev, block: U16, iface: U16)
    requires Good(chip, d) && Alive(d) && d.usb.rx != Disabled
    ensures var e := SetupPacket(Encode(WrongDirection(block, iface)));
            && CoveredEvent(e)
            && var r := Step(chip, d, e);
               && r.tgt == d.tgt && r.usb.rx != Disabled && r.usb.dfu.state == DnloadSync
               && r.usb.dfu.prog.Valid() && r.usb.dfu.prog.block == block
               && r.usb.dfu.prog.Payload() == d.usb.buffer
  {
    var p := Encode(WrongDirection(block, iface));
    WrongDirectionDecodes(block, iface);
    hide CoveredEvent, Whole, Encode, Decode, Received, StartReply;
    var v := AtDispatch(d.usb, p);
    assert Covered(v.req);
    DispatchDownload(chip, d.tgt, v);
    DispatchRelates(chip, d.tgt, v);
    ReplyFits(chip, d.tgt, v);
    hide Dispatch;
    StartReplyKeeps(Dispatch(chip, d.tgt, v).1);
    assert v.buffer[..TRANSFER_SIZE] == d.usb.buffer;
    hide Covered, NamesEndpoint;
  }

  /** An upload, a DNLOAD in the wrong direction that records its reply, and the poll that executes it. */
  function ReadAndKeep(block: U16, iface: U16): (es: seq<Event>)
    ensures CoveredRun(es)
  {
    UploadDecodes(block, iface);
    WrongDirectionDecodes(block, iface);
    [SetupPacket(Encode(UploadSetup(block, iface)))]
    + ([SetupPacket(Encode(WrongDirection(block, iface)))] + GetStatus(iface))
  }

  lemma ReadAndKeepRuns(chip: Chip, d: Dev, block: U16, iface: U16) returns (c: Command)
    requires Good(chip, d) && Alive(d) && d.usb.rx != Disabled && chip.upload && block != 0
    requires InUserArea(chip, BlockAddress(d.tgt.addr, block), TRANSFER_SIZE)
    ensures c.Valid() && c.block == block && c.len == TRANSFER_SIZE
    ensures Run(chip, d, ReadAndKeep(block, iface)).tgt == Apply(chip, d.tgt, c)
    ensures Executed(chip, d, ReadAndKeep(block, iface)) == [c]
    ensures var at := BlockAddress(d.tgt.addr, block) - FLASH_BASE;
            at + TRANSFER_SIZE <= |d.tgt.mem| && c.Payload() == d.tgt.mem[at..at + TRANSFER_SIZE]
  {
    hide Step, Run, Executed, Apply, BlockAddress, InUserArea, Encode;
    UploadFills(chip, d, block, iface);
    var e1, e2 := SetupPacket(Encode(UploadSetup(block, iface))), SetupPacket(Encode(WrongDirection(block, iface)));
    assert ReadAndKeep(block, iface) == [e1] + ([e2] + GetStatus(iface));
    RunCons(chip, d, e1, [e2] + GetStatus(iface));
    ExecutedCons(chip, d, e1, [e2] + GetStatus(iface));
    var d1 := Step(chip, d, e1);
    WrongDirectionRecords(chip, d1, block, iface);
    RunCons(chip, d1, e2, GetStatus(iface));
    ExecutedCons(chip, d1, e2, GetStatus(iface));
    var d2 := Step(chip, d1, e2);
    GetStatusRuns(chip, d2, iface);
    c := d2.usb.dfu.prog;
    assert |c.Payload()| == c.len;
  }

  /** HostWrites is needed where a build uploads too: two devices that differ in one cell of a block still
      differ after that traffic, although a block command has been executed. */
  lemma DirectionMatters(chip: Chip, d: Dev, e: Dev, block: U16, iface: U16, i: nat)
    requires chip.safeWrite && chip.upload && Twins(chip, d, e)
    requires Alive(d) && d.usb.rx != Disabled && block != 0 && Aligned(chip, d.tgt.addr) && i < TRANSFER_SIZE
    requires InUserArea(chip, BlockAddress(d.tgt.addr, block), TRANSFER_SIZE)
    requires var at := BlockAddress(d.tgt.addr, block) - FLASH_BASE; d.tgt.mem[at + i] != e.tgt.mem[at + i]
    ensures var r, s := Run(chip, d, ReadAndKeep(block, iface)), Run(chip, e, ReadAndKeep(block, iface));
            r.tgt.wiped && s.tgt.wiped && r.tgt.mem != s.tgt.mem
    ensures exists c :: c in Executed(chip, d, ReadAndKeep(block, iface)) && c.TouchesFlash()
  {
    hide *;
    TwinFacts(chip, d, e);
    ReadAndKeepShows(chip, d, block, iface, i);
    ReadAndKeepShows(chip, e, block, iface, i);
    CarriedExecutes(chip, d, block, iface);
  }

  /** The traffic executes a block command. */
  predicate Carried(chip: Chip, d: Dev, block: U16, iface: U16)
    requires Good(chip, d)
  {
    exists c :: c in Executed(chip, d, ReadAndKeep(block, iface)) && c.TouchesFlash()
  }

  lemma CarriedExecutes(chip: Chip, d: Dev, block: U16, iface: U16)
    requires Good(chip, d) && Carried(chip, d, block, iface)
    ensures exists c :: c in Executed(chip, d, ReadAndKeep(block, iface)) && c.TouchesFlash()
  {
  }

  lemma ReadAndKeepShows(chip: Chip, d: Dev, block: U16, iface: U16, i: nat)
    requires Good(chip, d) && chip.safeWrite && chip.upload && Alive(d) && d.usb.rx != Disabled && block != 0
    requires Aligned(chip, d.tgt.addr) && i < TRANSFER_SIZE
    requires InUserArea(chip, BlockAddress(d.tgt.addr, block), TRANSFER_SIZE)
    ensures var r, at := Run(chip, d, ReadAndKeep(block, iface)), BlockAddress(d.tgt.addr, block) - FLASH_BASE;
            && r.tgt.wiped && at + i < |r.tgt.mem| && at + i < |d.tgt.mem| && r.tgt.mem[at + i] == d.tgt.mem[at + i]
    ensures Carried(chip, d, block, iface)
  {
    hide Run, Executed, ReadAndKeep, Inv, BlockAddress, Chip.PageOf, Apply;
    var c := ReadAndKeepRuns(chip, d, block, iface);
    FullBlockShows(chip, d.tgt, c, i);
    BlockTouches(c);
    assert c in Executed(chip, d, ReadAndKeep(block, iface));
  }

  /** A full block from an aligned pointer shows its payload, after the wipe. */
  lemma FullBlockShows(chip: Chip, t: Target, c: Command, i: nat)
    requires chip.Valid() && chip.safeWrite && chip.Holds(t.mem) && c.Valid() && c.block != 0
    requires Aligned(chip, t.addr) && c.len == TRANSFER_SIZE && i < TRANSFER_SIZE
    requires InUserArea(chip, BlockAddress(t.addr, c.block), TRANSFER_SIZE)
    ensures var at := BlockAddress(t.addr, c.block) - FLASH_BASE;
            && Apply(chip, t, c).wiped && at + i < |Apply(chip, t, c).mem|
            && Apply(chip, t, c).mem[at + i] == c.Payload()[i]
  {
    hide Apply, BlockAddress, Chip.PageOf;
    assert |EvenPart(c.Payload())| == TRANSFER_SIZE;
    BlockStores(chip, t, c, i);
    BlockKeepsPointer(chip, t, c);
  }

  lemma BlockTouches(c: Command)
    requires c.Valid() && c.block != 0
    ensures c.TouchesFlash()
  {
  }

  lemma TwinFacts(chip: Chip, d: Dev, e: Dev)
    requires Twins(chip, d, e)
    ensures e.usb.rx == d.usb.rx && e.usb.dfu == d.usb.dfu && e.tgt.addr == d.tgt.addr
    ensures Good(chip, d) && Good(chip, e) && (Alive(d) ==> Alive(e))
  {
  }

  // ---- Where no upload reaches the user area -------------------------------------------------

  /** Uploads are refused, or the user area is smaller than a transfer, so that none lies inside it. */
  predicate Mute(chip: Chip) {
    !chip.upload || chip.Size() < BOOT_SIZE + TRANSFER_SIZE
  }

  /** An upload that is let through by the wrapped range test reads nothing of the flash. */
  lemma WrappedReads(chip: Chip, mem: seq<Byte>, now: seq<Byte>, base: U32)
    requires chip.Valid() && chip.Holds(mem) && chip.Holds(now) && base + TRANSFER_SIZE >= TWO_32
    ensures ReadRange(chip, mem, base, TRANSFER_SIZE) == ReadRange(chip, now, base, TRANSFER_SIZE)
  {
    forall i | 0 <= i < TRANSFER_SIZE
      ensures ReadRange(chip, mem, base, TRANSFER_SIZE)[i] == ReadRange(chip, now, base, TRANSFER_SIZE)[i]
    {
      assert Wrap(base + i) == if base + i < TWO_32 then base + i else base + i - TWO_32;
      assert Read(chip, mem, Wrap(base + i)) == chip.elsewhere == Read(chip, now, Wrap(base + i));
    }
  }

  /** There no request tells one flash from another. */
  lemma DispatchIgnoresTarget(chip: Chip, t: Target, s: Target, u: Usb)
    requires chip.Valid() && Mute(chip) && chip.Holds(t.mem) && chip.Holds(s.mem) && t.addr == s.addr
    requires u.Sized() && NamesEndpoint(u.req)
    ensures Dispatch(chip, t, u) == Dispatch(chip, s, u)
  {
    if u.req.ForDfu() {
      RequestIgnoresTarget(chip, t, s, u.dfu, u.req, u.buffer);
      hide DfuRequest;
    }
    hide StandardRequest;
  }

  lemma RequestIgnoresTarget(chip: Chip, t: Target, s: Target, d: Dfu, req: Setup, b: seq<Byte>)
    requires chip.Valid() && Mute(chip) && chip.Holds(t.mem) && chip.Holds(s.mem) && t.addr == s.addr
    requires |b| == TRANSFER_SIZE && |d.prog.buf| == TRANSFER_SIZE
    ensures DfuRequest(chip, t, d, req, b, req.wLength) == DfuRequest(chip, s, d, req, b, req.wLength)
  {
    hide Overwrite, ReadRange, StatusReply, BlockAddress, Accepts;
    if chip.upload {
      var base := BlockAddress(t.addr, req.wValue);
      AcceptsExactly(chip, base, TRANSFER_SIZE);
      if base + TRANSFER_SIZE >= TWO_32 {
        WrappedReads(chip, t.mem, s.mem, base);
      }
    }
  }

  lemma UsbStepIgnoresTarget(chip: Chip, t: Target, s: Target, u: Usb, e: Event)
    requires chip.Valid() && Mute(chip) && chip.Holds(t.mem) && chip.Holds(s.mem) && t.addr == s.addr
    requires Inv(u) && Completes(u, e) && CoveredEvent(e)
    ensures UsbStep(chip, t, u, e) == UsbStep(chip, s, u, e)
  {
    hide Dispatch, Received, StartReply, Mute;
    match e
    case Reset =>
    case InTaken =>
    case SetupPacket(p) =>
      if Whole(p) {
        var v := NakSet(u.(tx := Nak, callback := false), true).(req := Received(u, p), dataoff := 0);
        DispatchIgnoresTarget(chip, t, s, v);
      }
    case OutPacket(p) =>
      if u.fsm == LastDataOut {
        var (ok, v) := RecvChunk(u.(rx := Nak), p);
        DispatchIgnoresTarget(chip, t, s, v);
      }
  }

  /** There the two devices also answer alike all along, with or without HostWrites: their control states,
      reply bytes included, stay equal. */
  lemma {:induction false} AnswersHideUserArea(chip: Chip, d: Dev, e: Dev, es: seq<Event>)
    requires chip.safeWrite && Mute(chip) && Twins(chip, d, e) && d.usb == e.usb && CoveredRun(es)
    ensures Run(chip, d, es).usb == Run(chip, e, es).usb && Twins(chip, Run(chip, d, es), Run(chip, e, es))
    ensures d.tgt.wiped ==> Run(chip, d, es).tgt.wiped
    ensures (exists c :: c in Executed(chip, d, es) && c.TouchesFlash())
            ==> Run(chip, d, es).tgt.wiped && Run(chip, d, es) == Run(chip, e, es)
  {
    hide Step, Completes, Executes, CommandRuns.Alike, SameControl, Mute;
    if es != [] {
      var init, ev := es[..|es| - 1], es[|es| - 1];
      AnswersHideUserArea(chip, d, e, init);
      StepAnswersAlike(chip, Run(chip, d, init), Run(chip, e, init), ev);
    }
    if Run(chip, d, es).tgt.wiped {
      WipedAlikeEqual(chip, Run(chip, d, es).tgt, Run(chip, e, es).tgt);
    }
  }

  lemma StepAnswersAlike(chip: Chip, d: Dev, e: Dev, ev: Event)
    requires chip.safeWrite && Mute(chip) && Twins(chip, d, e) && d.usb == e.usb && CoveredEvent(ev)
    ensures Step(chip, d, ev).usb == Step(chip, e, ev).usb && Twins(chip, Step(chip, d, ev), Step(chip, e, ev))
    ensures d.tgt.wiped ==> Step(chip, d, ev).tgt.wiped
    ensures Alive(d) && Executes(d.usb, ev) && d.usb.dfu.prog.TouchesFlash() ==> Step(chip, d, ev).tgt.wiped
  {
    TwinFacts(chip, d, e);
    hide UsbStep, Alike, Apply, Mute;
    StepKeepsGood(chip, d, ev);
    StepKeepsGood(chip, e, ev);
    if Alive(d) && Completes(d.usb, ev) {
      UsbStepIgnoresTarget(chip, d.tgt, e.tgt, d.usb, ev);
      if Executes(d.usb, ev) {
        ApplyKeepsAlike(chip, d.tgt, e.tgt, d.usb.dfu.prog);
      }
    }
    SelfControl(Step(chip, d, ev).usb);
  }

  lemma SelfControl(u: Usb)
    requires Inv(u)
    ensures SameControl(u, u)
  {
  }

  // ---- When exactly the wipe hides the user area ---------------------------------------------

  /** After a run with an erase or block command the targets of two twins are equal. */
  ghost predicate Hidden(chip: Chip, d: Dev, e: Dev, es: seq<Event>)
    requires Twins(chip, d, e) && CoveredRun(es)
  {
    (exists c :: c in Executed(chip, d, es) && c.TouchesFlash()) ==> Run(chip, d, es).tgt == Run(chip, e, es).tgt
  }

  /** Whatever the host sends. */
  ghost predicate Hides(chip: Chip) {
    forall d: Dev, e: Dev, es: seq<Event> | Twins(chip, d, e) && d.usb == e.usb && CoveredRun(es) ::
      Hidden(chip, d, e, es)
  }

  /** A device that has just been reset, with this flash. */
  function Fresh(chip: Chip, mem: seq<Byte>): (d: Dev)
    requires chip.Valid() && chip.Holds(mem)
    ensures Good(chip, d) && Alive(d) && d.usb.rx != Disabled && d.tgt == Target(mem, 0, false)
  {
    StepKeepsGood(chip, PowerOn(chip, mem), Reset);
    Step(chip, PowerOn(chip, mem), Reset)
  }

  /** The block number that names the start of the user area from address pointer 0. */
  const FIRST_USER_BLOCK: U16 := 0x8004

  /** Otherwise there are two devices, fresh from a bus reset, that stay different. */
  lemma UploadBetrays(chip: Chip) returns (d: Dev, e: Dev)
    requires chip.Valid() && chip.safeWrite && !Mute(chip)
    ensures Twins(chip, d, e) && d.usb == e.usb && !Hidden(chip, d, e, ReadAndKeep(FIRST_USER_BLOCK, 0))
  {
    d, e := Fresh(chip, BlankBut(chip, chip.Size())), Fresh(chip, BlankBut(chip, BOOT_SIZE));
    SelfControl(d.usb);
    assert Aligned(chip, 0);
    hide Inv, Run, Executed, ReadAndKeep, Chip.PageOf, SameControl;
    assert BlockAddress(0, FIRST_USER_BLOCK) == USER_START;
    DirectionMatters(chip, d, e, FIRST_USER_BLOCK, 0, 0);
  }

  /** In a protected build the wipe hides the user area from every host, whatever it sends, exactly when no
      upload can reach that area. */
  lemma WipeHidesExactly(chip: Chip)
    requires chip.Valid() && chip.safeWrite
    ensures Hides(chip) <==> Mute(chip)
  {
    hide Mute, Twins, Run, Executed;
    if Mute(chip) {
      forall d: Dev, e: Dev, es: seq<Event> | Twins(chip, d, e) && d.usb == e.usb && CoveredRun(es)
        ensures Hidden(chip, d, e, es)
      {
        AnswersHideUserArea(chip, d, e, es);
      }
    } else {
      var d, e := UploadBetrays(chip);
    }
  }
}
