/** End to end: the packets of a DFU download, sent as the host sends them, put the image into flash. */
module Download {
  import opened Words
  import opened Flash
  import opened Commands
  import opened DfuRequests
  import opened Control
  import opened Device
  import opened Stages

  // ---- What the host sends -------------------------------------------------------------------

  /** A data stage in 64-byte packets, the last one shorter if the data ends there. */
  function OutPackets(data: seq<Byte>): (es: seq<Event>)
    ensures CoveredRun(es) && |es| > 0
  {
    if |data| > PACKET then [OutPacket(data[..PACKET])] + OutPackets(data[PACKET..])
    else [OutPacket(data)]
  }

  function DnloadSetup(block: U16, iface: U16, len: U16): Setup {
    Setup(0x21, DFU_DNLOAD, block, iface, len)
  }

  function StatusSetup(iface: U16): Setup {
    Setup(0xA1, DFU_GETSTATUS, 0, iface, 6)
  }

  /** What the device decodes from the two setup packets. */
  lemma DnloadDecodes(block: U16, iface: U16, len: U16)
    requires len <= TRANSFER_SIZE
    ensures var p := Encode(DnloadSetup(block, iface, len));
            Whole(p) && Decode(p[..8]) == DnloadSetup(block, iface, len) && CoveredEvent(SetupPacket(p))
  {
    var p := Encode(DnloadSetup(block, iface, len));
    DecodeEncode(DnloadSetup(block, iface, len));
    assert p[..8] == p;
    hide Encode, Decode;
  }

  lemma StatusDecodes(iface: U16)
    ensures var p := Encode(StatusSetup(iface));
            Whole(p) && Decode(p[..8]) == StatusSetup(iface) && CoveredEvent(SetupPacket(p))
  {
    var p := Encode(StatusSetup(iface));
    DecodeEncode(StatusSetup(iface));
    assert p[..8] == p;
    hide Encode, Decode;
  }

  /** DFU_DNLOAD of one block: setup stage, data stage, status stage. */
  function Dnload(block: U16, iface: U16, data: seq<Byte>): (es: seq<Event>)
    requires 1 <= |data| <= TRANSFER_SIZE
    ensures CoveredRun(es)
  {
    DnloadDecodes(block, iface, |data|);
    [SetupPacket(Encode(DnloadSetup(block, iface, |data|)))] + OutPackets(data) + [InTaken]
  }

  /** DFU_GETSTATUS: setup stage, one data packet, status stage. */
  function GetStatus(iface: U16): (es: seq<Event>)
    ensures CoveredRun(es)
  {
    StatusDecodes(iface);
    [SetupPacket(Encode(StatusSetup(iface))), InTaken, OutPacket([])]
  }

  // ---- The DNLOAD transfer -------------------------------------------------------------------

  /** In the data stage of a DNLOAD, with the first `done` bytes received. */
  predicate Loading(u: Usb, block: U16, iface: U16, data: seq<Byte>, done: nat) {
    && 1 <= |data| <= TRANSFER_SIZE && done < |data|
    && u.req == DnloadSetup(block, iface, |data|)
    && u.datasize == done && u.Sized() && u.buffer[..done] == data[..done]
    && u.fsm == (if |data| - done > PACKET then DataOut else LastDataOut)
    && u.rx == Valid && !u.forceNak && u.dfu.state != Manifest
  }

  /** The DNLOAD has been accepted: command recorded, status stage armed. */
  predicate Loaded(u: Usb, block: U16, data: seq<Byte>) {
    && u.fsm == StatusIn && u.tx == Valid && !u.callback && u.dfu.state == DnloadSync
    && u.req.bmRequestType == 0x21 && u.rx != Disabled
    && u.dfu.prog.Valid() && u.dfu.prog.block == block && u.dfu.prog.Payload() == data
  }

  lemma SetupLoads(chip: Chip, d: Dev, block: U16, iface: U16, data: seq<Byte>)
    requires Good(chip, d) && Alive(d) && d.usb.rx != Disabled && 1 <= |data| <= TRANSFER_SIZE
    ensures var setup := SetupPacket(Encode(DnloadSetup(block, iface, |data|)));
            && CoveredEvent(setup) && Step(chip, d, setup).tgt == d.tgt
            && Loading(Step(chip, d, setup).usb, block, iface, data, 0)
  {
    DnloadDecodes(block, iface, |data|);
    hide Dispatch, Received, SetupRead, Encode, Decode, CoveredEvent, Covered, Whole;
  }

  lemma ChunkLoads(u: Usb, block: U16, iface: U16, data: seq<Byte>, done: nat)
    requires Loading(u, block, iface, data, done)
    ensures var n := Min(PACKET, |data| - done);
            var (ok, v) := RecvChunk(u.(rx := Nak), data[done..done + n]);
            && ok && v == u.(rx := Valid, buffer := v.buffer, datasize := done + n)
            && v.Sized() && v.buffer[..done + n] == data[..done + n]
  {
    var n := Min(PACKET, |data| - done);
    var p := data[done..done + n];
    assert p[..n] == p;
    assert data[..done] + p == data[..done + n];
  }

  lemma PacketLoads(chip: Chip, d: Dev, block: U16, iface: U16, data: seq<Byte>, done: nat)
    requires Good(chip, d) && Loading(d.usb, block, iface, data, done)
    ensures var n := Min(PACKET, |data| - done);
            var r := Step(chip, d, OutPacket(data[done..done + n]));
            && r.tgt == d.tgt && !Executes(d.usb, OutPacket(data[done..done + n]))
            && (if |data| - done > PACKET then Loading(r.usb, block, iface, data, done + n)
                else Loaded(r.usb, block, data))
  {
    ChunkLoads(d.usb, block, iface, data, done);
    if |data| - done > PACKET {
      hide RecvChunk, Dispatch, Covered;
    } else {
      LastPacketLoads(chip, d, block, iface, data, done);
    }
  }

  lemma LastPacketLoads(chip: Chip, d: Dev, block: U16, iface: U16, data: seq<Byte>, done: nat)
    requires Good(chip, d) && Loading(d.usb, block, iface, data, done) && |data| - done <= PACKET
    ensures var r := Step(chip, d, OutPacket(data[done..|data|]));
            r.tgt == d.tgt && Loaded(r.usb, block, data)
  {
    ChunkLoads(d.usb, block, iface, data, done);
    hide RecvChunk;
    var (ok, v) := RecvChunk(d.usb.(rx := Nak), data[done..|data|]);
    assert data[..|data|] == data;
    DispatchRelates(chip, d.tgt, v);
    DispatchDownload(chip, d.tgt, v);
    hide Dispatch, Covered;
  }

  lemma DispatchDownload(chip: Chip, t: Target, u: Usb)
    requires chip.Valid() && chip.Holds(t.mem) && u.Sized() && Covered(u.req)
    requires IsDownload(u.req) && u.req.wLength <= TRANSFER_SIZE
    ensures var (ok, w) := Dispatch(chip, t, u);
            ok && w.dfu.state == DnloadSync && w.callback == u.callback && w.rx == u.rx
  {
  }

  lemma {:induction false} PacketsLoad(chip: Chip, d: Dev, block: U16, iface: U16, data: seq<Byte>, done: nat)
    requires Good(chip, d) && Loading(d.usb, block, iface, data, done)
    ensures var r := Run(chip, d, OutPackets(data[done..]));
            r.tgt == d.tgt && Loaded(r.usb, block, data)
    ensures Executed(chip, d, OutPackets(data[done..])) == []
    decreases |data| - done
  {
    hide Step, Run, Executed, Executes, Loading, Loaded;
    assert done < |data| by { LoadingFacts(d.usb, block, iface, data, done); }
    var rest := data[done..];
    PacketLoads(chip, d, block, iface, data, done);
    if |rest| > PACKET {
      var e := OutPacket(data[done..done + PACKET]);
      assert rest[..PACKET] == data[done..done + PACKET];
      assert rest[PACKET..] == data[done + PACKET..];
      assert OutPackets(rest) == [e] + OutPackets(data[done + PACKET..]);
      RunCons(chip, d, e, OutPackets(data[done + PACKET..]));
      ExecutedCons(chip, d, e, OutPackets(data[done + PACKET..]));
      PacketsLoad(chip, Step(chip, d, e), block, iface, data, done + PACKET);
    } else {
      assert data[done..|data|] == rest;
      RunOne(chip, d, OutPacket(rest));
      ExecutedOne(chip, d, OutPacket(rest));
    }
  }

  lemma LoadingFacts(u: Usb, block: U16, iface: U16, data: seq<Byte>, done: nat)
    requires Loading(u, block, iface, data, done)
    ensures done < |data|
  {
  }

  /** After the status stage of a DNLOAD: idle, command recorded and waiting. */
  predicate Recorded(u: Usb, block: U16, data: seq<Byte>) {
    && u.fsm == Idle && u.dfu.state == DnloadSync && u.rx != Disabled
    && u.dfu.prog.Valid() && u.dfu.prog.block == block && u.dfu.prog.Payload() == data
  }

  lemma StatusRecords(chip: Chip, d: Dev, block: U16, data: seq<Byte>)
    requires Good(chip, d) && Loaded(d.usb, block, data)
    ensures Step(chip, d, InTaken).tgt == d.tgt && Recorded(Step(chip, d, InTaken).usb, block, data)
    ensures !Executes(d.usb, InTaken)
  {
  }

  lemma DnloadRuns(chip: Chip, d: Dev, block: U16, iface: U16, data: seq<Byte>)
    requires Good(chip, d) && Alive(d) && d.usb.rx != Disabled && 1 <= |data| <= TRANSFER_SIZE
    ensures var r := Run(chip, d, Dnload(block, iface, data));
            r.tgt == d.tgt && Recorded(r.usb, block, data)
    ensures Executed(chip, d, Dnload(block, iface, data)) == []
  {
    hide Step, Run, Executed, Loading, Loaded, Recorded, Alive;
    var setup := SetupPacket(Encode(DnloadSetup(block, iface, |data|)));
    SetupLoads(chip, d, block, iface, data);
    var outs := OutPackets(data);
    assert Dnload(block, iface, data) == [setup] + (outs + [InTaken]);
    RunCons(chip, d, setup, outs + [InTaken]);
    ExecutedCons(chip, d, setup, outs + [InTaken]);
    hide Executes;
    var d1 := Step(chip, d, setup);
    assert data[0..] == data;
    PacketsLoad(chip, d1, block, iface, data, 0);
    RunConcat(chip, d1, outs, [InTaken]);
    ExecutedConcat(chip, d1, outs, [InTaken]);
    var d2 := Run(chip, d1, outs);
    RunOne(chip, d2, InTaken);
    ExecutedOne(chip, d2, InTaken);
    StatusRecords(chip, d2, block, data);
  }

  // ---- The GETSTATUS transfer ----------------------------------------------------------------

  /** Polled: the command is busy and the callback registered, the reply packet is armed. */
  predicate Polled(u: Usb, c: Command) {
    u.fsm == LastDataIn && u.tx == Valid && u.callback && u.dfu == Dfu(DnBusy, c)
  }

  lemma SetupPolls(chip: Chip, d: Dev, iface: U16)
    requires Good(chip, d) && d.usb.dfu.state.Pending() && d.usb.rx != Disabled
    ensures var setup := SetupPacket(Encode(StatusSetup(iface)));
            && CoveredEvent(setup) && Step(chip, d, setup).tgt == d.tgt
            && Polled(Step(chip, d, setup).usb, d.usb.dfu.prog)
  {
    var p := Encode(StatusSetup(iface));
    StatusDecodes(iface);
    hide Received, Encode, Decode;
    var v := AtDispatch(d.usb, p);
    var (ok, w) := Dispatch(chip, d.tgt, v);
    assert ok && w == v.(dfu := Dfu(DnBusy, d.usb.dfu.prog), buffer := w.buffer, datasize := 6, callback := true);
    hide Dispatch;
  }

  lemma ReplyTaken(chip: Chip, d: Dev, c: Command)
    requires Good(chip, d) && Polled(d.usb, c)
    ensures var r := Step(chip, d, InTaken);
            && r.tgt == d.tgt && r.usb.fsm == StatusOut && r.usb.rx == Valid
            && r.usb.callback && r.usb.dfu == Dfu(DnBusy, c) && !Executes(d.usb, InTaken)
  {
  }

  lemma StatusExecutes(chip: Chip, d: Dev, c: Command)
    requires Good(chip, d) && d.usb.fsm == StatusOut && d.usb.rx == Valid
    requires d.usb.callback && d.usb.dfu == Dfu(DnBusy, c)
    ensures var r := Step(chip, d, OutPacket([]));
            && c.Valid() && r.tgt == Apply(chip, d.tgt, c)
            && r.usb.fsm == Idle && r.usb.rx != Disabled && r.usb.dfu == Dfu(DnloadIdle, c)
            && Executes(d.usb, OutPacket([]))
  {
    hide Apply;
  }

  /** A completed GETSTATUS executes the recorded command, also after one that was broken off. */
  lemma GetStatusRuns(chip: Chip, d: Dev, iface: U16)
    requires Good(chip, d) && d.usb.dfu.state.Pending() && d.usb.rx != Disabled
    ensures var c, r := d.usb.dfu.prog, Run(chip, d, GetStatus(iface));
            && c.Valid() && r.tgt == Apply(chip, d.tgt, c)
            && r.usb.fsm == Idle && r.usb.rx != Disabled && r.usb.dfu == Dfu(DnloadIdle, c)
    ensures Executed(chip, d, GetStatus(iface)) == [d.usb.dfu.prog]
  {
    hide Step, Run, Executed, Apply, Polled;
    var setup := SetupPacket(Encode(StatusSetup(iface)));
    SetupPolls(chip, d, iface);
    assert GetStatus(iface) == [setup] + ([InTaken] + [OutPacket([])]);
    RunCons(chip, d, setup, [InTaken] + [OutPacket([])]);
    ExecutedCons(chip, d, setup, [InTaken] + [OutPacket([])]);
    hide Executes;
    var d1 := Step(chip, d, setup);
    ReplyTaken(chip, d1, d.usb.dfu.prog);
    RunCons(chip, d1, InTaken, [OutPacket([])]);
    ExecutedCons(chip, d1, InTaken, [OutPacket([])]);
    var d2 := Step(chip, d1, InTaken);
    RunOne(chip, d2, OutPacket([]));
    ExecutedOne(chip, d2, OutPacket([]));
    StatusExecutes(chip, d2, d.usb.dfu.prog);
  }

  // ---- What a transfer carries ---------------------------------------------------------------

  datatype Block = Block(num: U16, data: seq<Byte>)

  predicate Sendable(b: Block) {
    1 <= |b.data| <= TRANSFER_SIZE
  }

  predicate Carries(c: Command, b: Block) {
    c.Valid() && c.block == b.num && c.Payload() == b.data
  }

  /** Ready for the next transfer. */
  predicate Ready(chip: Chip, d: Dev) {
    Good(chip, d) && Alive(d) && d.usb.rx != Disabled
  }

  // ---- Staying ready -------------------------------------------------------------------------

  lemma SetupKeepsReceiving(chip: Chip, t: Target, u: Usb, p: seq<Byte>)
    requires chip.Valid() && chip.Holds(t.mem) && Inv(u) && CoveredEvent(SetupPacket(p))
    ensures ControlSetup(chip, t, u, p).rx != Disabled
  {
    hide Dispatch, Received, StartReply, SetupRead, Covered;
    if Whole(p) {
      var v := AtDispatch(u, p).(dataoff := u.dataoff);
      if v.req.DeviceToHost() || v.req.wLength == 0 {
        ReadKeepsReceiving(chip, t, v);
      }
    }
  }

  lemma ReadKeepsReceiving(chip: Chip, t: Target, u: Usb)
    requires chip.Valid() && chip.Holds(t.mem) && u.Sized() && Covered(u.req) && u.rx != Disabled
    requires u.dfu.state.Pending() ==> u.dfu.prog.Valid()
    requires u.req.DeviceToHost() || u.req.wLength == 0
    ensures SetupRead(chip, t, u).rx != Disabled
  {
    hide Dispatch, StartReply, Covered;
    var v := u.(dataoff := 0);
    DispatchRelates(chip, t, v);
    ReplyFits(chip, t, v);
    if Dispatch(chip, t, v).0 {
      StartReplyKeepsRx(Dispatch(chip, t, v).1);
    }
  }

  lemma OutKeepsReceiving(chip: Chip, t: Target, u: Usb, p: seq<Byte>)
    requires chip.Valid() && chip.Holds(t.mem) && Inv(u)
    ensures ControlOut(chip, t, u, p).rx != Disabled
  {
    hide Dispatch, RecvChunk, Covered;
    if u.fsm == DataOut || u.fsm == LastDataOut {
      RecvChunkKeeps(u.(rx := Nak), p);
      DispatchRelates(chip, t, RecvChunk(u.(rx := Nak), p).1);
    }
  }

  lemma StepKeepsReceiving(chip: Chip, d: Dev, e: Event)
    requires Good(chip, d) && CoveredEvent(e) && (d.usb.rx != Disabled || e == Reset) && Alive(d)
    ensures Step(chip, d, e).usb.rx != Disabled
  {
    hide ControlSetup, ControlOut;
    if Completes(d.usb, e) {
      match e
      case Reset =>
      case InTaken =>
      case SetupPacket(p) => SetupKeepsReceiving(chip, d.tgt, d.usb, p);
      case OutPacket(p) => OutKeepsReceiving(chip, d.tgt, d.usb, p);
    }
  }

  lemma StartReplyKeepsRx(u: Usb)
    requires u.Sized() && u.dataoff == 0 && Min(u.datasize, u.req.wLength) <= TRANSFER_SIZE
    ensures StartReply(u).rx == u.rx
  {
  }

  lemma {:induction false} RunKeepsReady(chip: Chip, d: Dev, es: seq<Event>)
    requires Good(chip, d) && CoveredRun(es) && Alive(Run(chip, d, es))
    requires d.usb.rx != Disabled || (es != [] && es[0] == Reset)
    ensures Ready(chip, Run(chip, d, es))
  {
    hide Step, Alive;
    if es != [] {
      var init, e := es[..|es| - 1], es[|es| - 1];
      var d' := Run(chip, d, init);
      DeadStays(chip, d', e);
      if init != [] || d.usb.rx != Disabled {
        RunKeepsReady(chip, d, init);
      }
      StepKeepsReceiving(chip, d', e);
    }
  }

  lemma DeadStays(chip: Chip, d: Dev, e: Event)
    requires Good(chip, d) && CoveredEvent(e) && Alive(Step(chip, d, e))
    ensures Alive(d)
  {
  }
}
