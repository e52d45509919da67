/** A bus monitor that keeps its own record of the host's traffic, and the laws that tie every run of the
    device to that record: reassembly of OUT data, at-most-once execution of each download, and the
    latching of the device address. */
module Monitor {
  import opened Words
  import opened Flash
  import opened Commands
  import opened DfuRequests
  import opened Control
  import opened Device

  /** Where a control transfer stands for one who only watches the bus. */
  datatype Stage = Quiet | Reading | Writing | Confirming

  /** A completed DNLOAD with data: from the host, or, by a request with the wrong direction, of bytes the
      host did not send. */
  datatype Sent = Download(block: U16, payload: seq<Byte>) | Misdirected(block: U16, len: nat)
  {
    predicate Matches(c: Command)
      requires c.Valid()
    {
      match this
      case Download(b, p) => c.block == b && c.Payload() == p
      case Misdirected(b, n) => c.block == b && c.len == n
    }
  }

  /** The last whole setup packet and the stage of its transfer, the bytes of its OUT stage, every completed
      DNLOAD, oldest first, and the address register the host may expect, 0 before the first bus reset. */
  datatype Log = Log(req: Setup, stage: Stage, got: seq<Byte>, sent: seq<Sent>, address: nat)

  /** The stage that a setup packet opens. */
  function Opened(req: Setup): Stage {
    if req.wLength == 0 then Confirming
    else if req.DeviceToHost() then Reading
    else if req.wLength <= TRANSFER_SIZE then Writing
    else Quiet
  }

  predicate SetsAddress(req: Setup) {
    req.bmRequestType == 0 && req.bRequest == SET_ADDRESS
  }

  /** How the monitor reads one transaction that the device has acknowledged. It sees the host's packets and
      that the device's were taken; nothing of the device's state. */
  function Observe(m: Log, e: Event): Log {
    match e
    case Reset => m.(address := ADDRESS_ENABLE)
    case SetupPacket(p) =>
      if Whole(p) then ObserveSetup(m, Decode(p[..8])) else m.(stage := Quiet)
    case OutPacket(p) => if m.stage == Writing then ObserveData(m, p) else m.(stage := Quiet)
    case InTaken =>
      if m.stage == Confirming then
        m.(stage := Quiet,
           address := if SetsAddress(m.req) then ADDRESS_ENABLE + m.req.wValue else m.address)
      else m
  }

  function ObserveSetup(m: Log, req: Setup): Log {
    m.(req := req, stage := Opened(req), got := [],
       sent := if IsDownload(req) && req.DeviceToHost() then m.sent + [Misdirected(req.wValue, req.wLength)]
               else m.sent)
  }

  /** A packet of an OUT stage: cut to what is expected, or too short. */
  function ObserveData(m: Log, p: seq<Byte>): Log {
    var next := Min(PACKET, m.req.wLength - |m.got|);
    if 0 <= next <= |p| % 0x400 then
      var m' := m.(got := m.got + p[..next]);
      if |m'.got| == m.req.wLength then ObserveEnd(m') else m'
    else m.(stage := Quiet)
  }

  /** All the data of an OUT stage is there. */
  function ObserveEnd(m: Log): Log {
    m.(stage := Confirming,
       sent := if IsDownload(m.req) then m.sent + [Download(m.req.wValue, m.got)] else m.sent)
  }

  /** The record after a run. All it takes from the device is which transactions complete. */
  function Watch(chip: Chip, m: Log, d: Dev, es: seq<Event>): Log
    requires Good(chip, d) && CoveredRun(es)
  {
    if es == [] then m
    else
      var init, e := es[..|es| - 1], es[|es| - 1];
      var d' := Run(chip, d, init);
      var m' := Watch(chip, m, d, init);
      if Alive(d') && Completes(d'.usb, e) then Observe(m', e) else m'
  }

  /** The recorded command is the latest download. */
  predicate Waiting(m: Log, c: Command) {
    m.sent != [] && c.Valid() && m.sent[|m.sent| - 1].Matches(c)
  }

  /** The stage of the record and that of the device. */
  predicate SameStage(m: Log, u: Usb) {
    && (u.tx == Valid ==> u.fsm == DataIn || u.fsm == LastDataIn || u.fsm == StatusIn)
    && (Receiving(u) <==> m.stage == Writing)
    && (u.fsm == StatusIn ==> m.stage == Confirming)
    && (u.fsm == DataIn || u.fsm == LastDataIn || u.fsm == StatusOut ==> m.stage == Reading)
    && (u.fsm != Idle ==> u.req == m.req)
  }

  /** Device and record agree. */
  predicate Agrees(m: Log, u: Usb) {
    && SameStage(m, u)
    && (Receiving(u) ==> u.datasize <= TRANSFER_SIZE && |u.buffer| == TRANSFER_SIZE && m.got == u.buffer[..u.datasize])
    && (u.dfu.state.Pending() ==> Waiting(m, u.dfu.prog))
    && u.daddr == m.address
    && (u.callback && u.fsm != Idle ==> AsksStatus(u.req))
  }

  predicate AsksStatus(req: Setup) {
    req.bmRequestType % 0x80 == 0x21 && req.bRequest == 3
  }

  /** A command pending after an event was recorded by it, or was pending before and not executed by it. */
  predicate Follows(m: Log, u: Usb, e: Event, m': Log, v: Usb) {
    && m.sent <= m'.sent
    && (v.dfu.state.Pending() ==>
          |m'.sent| == |m.sent| + 1 || (u.dfu.state.Pending() && m'.sent == m.sent && !Executes(u, e)))
  }

  lemma ReadAgrees(chip: Chip, t: Target, m: Log, u: Usb)
    requires chip.Valid() && chip.Holds(t.mem) && u.Sized() && Covered(u.req) && u.tx == Nak && !u.callback
    requires (u.dfu.state.Pending() ==> Waiting(m, u.dfu.prog)) && u.daddr == m.address
    requires u.req.DeviceToHost() || u.req.wLength == 0
    ensures var v := SetupRead(chip, t, u);
            && Agrees(ObserveSetup(m, u.req), v)
            && (v.dfu.state.Pending() ==> IsDownload(u.req) || u.dfu.state.Pending())
  {
    hide Dispatch, StartReply;
    var v := u.(dataoff := 0);
    DispatchRelates(chip, t, v);
    ReplyFits(chip, t, v);
    var (ok, w) := Dispatch(chip, t, v);
    if ok {
      StartReplyKeeps(w);
    }
  }

  lemma SetupAgrees(chip: Chip, t: Target, m: Log, u: Usb, p: seq<Byte>)
    requires chip.Valid() && chip.Holds(t.mem) && Inv(u) && Agrees(m, u) && CoveredEvent(SetupPacket(p))
    ensures Agrees(Observe(m, SetupPacket(p)), ControlSetup(chip, t, u, p))
    ensures Follows(m, u, SetupPacket(p), Observe(m, SetupPacket(p)), ControlSetup(chip, t, u, p))
  {
    hide SetupRead, Received;
    if Whole(p) {
      var v := NakSet(u.(tx := Nak, callback := false), true).(req := Received(u, p));
      if v.req.DeviceToHost() || v.req.wLength == 0 {
        ReadAgrees(chip, t, m, v);
        hide Agrees;
      }
    }
  }

  /** The next packet of an OUT stage extends the device's buffer and the record alike. */
  lemma ChunkAgrees(m: Log, u: Usb, p: seq<Byte>)
    requires Inv(u) && Agrees(m, u) && Receiving(u)
    ensures var (ok, v) := RecvChunk(u.(rx := Nak), p);
            var next := Min(PACKET, m.req.wLength - |m.got|);
            && ok == (next <= |p| % 0x400) && v.datasize <= m.req.wLength <= TRANSFER_SIZE
            && (ok ==> m.got + p[..next] == v.buffer[..v.datasize] && v.datasize == u.datasize + next)
  {
  }

  lemma AnswerAgrees(chip: Chip, t: Target, m: Log, u: Usb)
    requires chip.Valid() && chip.Holds(t.mem) && u.Sized() && Covered(u.req) && u.tx != Valid && !u.callback
    requires (u.dfu.state.Pending() ==> Waiting(m, u.dfu.prog)) && u.daddr == m.address && u.req == m.req
    requires |m.got| == u.req.wLength <= TRANSFER_SIZE && u.buffer[..u.req.wLength] == m.got
    ensures var (handled, w) := Dispatch(chip, t, u);
            && Agrees(ObserveEnd(m), Answered(handled, w))
            && (Answered(handled, w).dfu.state.Pending() ==> IsDownload(m.req) || u.dfu.state.Pending())
  {
    hide Dispatch;
    DispatchRelates(chip, t, u);
  }

  lemma LastPacketAgrees(chip: Chip, t: Target, m: Log, u: Usb, p: seq<Byte>)
    requires chip.Valid() && chip.Holds(t.mem) && Inv(u) && Agrees(m, u) && u.fsm == LastDataOut
    ensures Agrees(Observe(m, OutPacket(p)), ControlOut(chip, t, u, p))
    ensures Follows(m, u, OutPacket(p), Observe(m, OutPacket(p)), ControlOut(chip, t, u, p))
  {
    hide Dispatch, RecvChunk, Answered;
    ChunkAgrees(m, u, p);
    var (ok, v) := RecvChunk(u.(rx := Nak), p);
    RecvChunkKeeps(u.(rx := Nak), p);
    if ok {
      AnswerAgrees(chip, t, m.(got := m.got + p[..Min(PACKET, m.req.wLength - |m.got|)]), v);
      hide Agrees;
    }
  }

  lemma MorePacketsAgree(chip: Chip, t: Target, m: Log, u: Usb, p: seq<Byte>)
    requires chip.Valid() && chip.Holds(t.mem) && Inv(u) && Agrees(m, u) && u.fsm == DataOut
    ensures Agrees(Observe(m, OutPacket(p)), ControlOut(chip, t, u, p))
    ensures Follows(m, u, OutPacket(p), Observe(m, OutPacket(p)), ControlOut(chip, t, u, p))
  {
    hide Dispatch, RecvChunk;
    ChunkAgrees(m, u, p);
    RecvChunkKeeps(u.(rx := Nak), p);
  }

  lemma OtherOutAgrees(chip: Chip, t: Target, m: Log, u: Usb, p: seq<Byte>)
    requires chip.Valid() && chip.Holds(t.mem) && Inv(u) && Agrees(m, u) && !Receiving(u)
    requires Completes(u, OutPacket(p))
    ensures Agrees(Observe(m, OutPacket(p)), ControlOut(chip, t, u, p))
    ensures Follows(m, u, OutPacket(p), Observe(m, OutPacket(p)), ControlOut(chip, t, u, p))
  {
    hide Dispatch, RecvChunk, Covered;
  }

  lemma OutAgrees(chip: Chip, t: Target, m: Log, u: Usb, p: seq<Byte>)
    requires chip.Valid() && chip.Holds(t.mem) && Inv(u) && Agrees(m, u)
    requires Completes(u, OutPacket(p))
    ensures Agrees(Observe(m, OutPacket(p)), ControlOut(chip, t, u, p))
    ensures Follows(m, u, OutPacket(p), Observe(m, OutPacket(p)), ControlOut(chip, t, u, p))
  {
    hide Agrees, Follows, Observe, ControlOut, Inv;
    if u.fsm == LastDataOut {
      LastPacketAgrees(chip, t, m, u, p);
    } else if u.fsm == DataOut {
      MorePacketsAgree(chip, t, m, u, p);
    } else {
      OtherOutAgrees(chip, t, m, u, p);
    }
  }

  lemma StatusInAgrees(m: Log, u: Usb)
    requires Inv(u) && Agrees(m, u) && Completes(u, InTaken) && u.fsm == StatusIn
    ensures Agrees(Observe(m, InTaken), ControlIn(u))
    ensures Follows(m, u, InTaken, Observe(m, InTaken), ControlIn(u))
  {
    hide SendChunk, Covered;
  }

  lemma InAgrees(m: Log, u: Usb)
    requires Inv(u) && Agrees(m, u) && Completes(u, InTaken)
    ensures Agrees(Observe(m, InTaken), ControlIn(u))
    ensures Follows(m, u, InTaken, Observe(m, InTaken), ControlIn(u))
  {
    if u.fsm == StatusIn {
      StatusInAgrees(m, u);
    } else {
      hide Covered, Waiting;
    }
  }

  lemma ResetAgrees(m: Log, u: Usb)
    requires Agrees(m, u)
    ensures Agrees(Observe(m, Reset), BusReset(u)) && Follows(m, u, Reset, Observe(m, Reset), BusReset(u))
  {
  }

  lemma StepAgrees(chip: Chip, m: Log, d: Dev, e: Event)
    requires Good(chip, d) && CoveredEvent(e) && Agrees(m, d.usb)
    ensures var m' := if Alive(d) && Completes(d.usb, e) then Observe(m, e) else m;
            Agrees(m', Step(chip, d, e).usb) && (Alive(d) ==> Follows(m, d.usb, e, m', Step(chip, d, e).usb))
  {
    hide Agrees, ControlSetup, ControlOut, ControlIn, Observe;
    if Alive(d) && Completes(d.usb, e) {
      hide Follows;
      match e
      case Reset => ResetAgrees(m, d.usb);
      case SetupPacket(p) => SetupAgrees(chip, d.tgt, m, d.usb, p);
      case OutPacket(p) => OutAgrees(chip, d.tgt, m, d.usb, p);
      case InTaken => InAgrees(m, d.usb);
    }
  }

  lemma {:induction false} RunAgrees(chip: Chip, m: Log, d: Dev, es: seq<Event>)
    requires Good(chip, d) && CoveredRun(es) && Agrees(m, d.usb)
    ensures Agrees(Watch(chip, m, d, es), Run(chip, d, es).usb)
  {
    hide Agrees, Step, Observe, Follows;
    if es != [] {
      var init := es[..|es| - 1];
      RunAgrees(chip, m, d, init);
      StepAgrees(chip, Watch(chip, m, d, init), Run(chip, d, init), es[|es| - 1]);
    }
  }

  // ---- What follows for every run ------------------------------------------------------------

  /** OUT reassembly: while an OUT stage is open, the control buffer holds exactly the bytes of the
      packets accepted so far, more than one packet is missing in DATA_OUT, and one in LAST_DATA_OUT. */
  lemma OutReassembly(chip: Chip, m: Log, d: Dev, es: seq<Event>)
    requires Good(chip, d) && CoveredRun(es) && Agrees(m, d.usb)
    ensures var u, m' := Run(chip, d, es).usb, Watch(chip, m, d, es);
            && (Receiving(u) <==> m'.stage == Writing)
            && (Receiving(u) ==> |m'.got| == u.datasize && u.buffer[..|m'.got|] == m'.got && u.req == m'.req)
            && (u.fsm == DataOut ==> u.req.wLength - |m'.got| > PACKET)
            && (u.fsm == LastDataOut ==> 0 < u.req.wLength - |m'.got| <= PACKET)
  {
    hide Step, Observe, Waiting;
    RunAgrees(chip, m, d, es);
  }

  /** What one more packet of an OUT stage does: the request is dispatched when the record shows all its
      wLength bytes, no more than 4096, with exactly these bytes in the control buffer, and the stage is over;
      before that nothing but the reassembly moves. */
  lemma DispatchedWhole(chip: Chip, m: Log, d: Dev, es: seq<Event>, p: seq<Byte>)
    requires Good(chip, d) && CoveredRun(es) && Agrees(m, d.usb)
    requires Receiving(Run(chip, d, es).usb)
    ensures var r, m' := Run(chip, d, es), Observe(Watch(chip, m, d, es), OutPacket(p));
            var u, v := r.usb, ControlOut(chip, r.tgt, r.usb, p);
            if m'.stage == Confirming then
              var w := RecvChunk(u.(rx := Nak), p).1;
              var (handled, x) := Dispatch(chip, r.tgt, w);
              && |m'.got| == u.req.wLength <= TRANSFER_SIZE
              && w.req == u.req && w.dfu == u.dfu && w.buffer[..u.req.wLength] == m'.got
              && v == Answered(handled, x) && !Receiving(v)
              && (if handled then v.fsm == StatusIn && v.tx == Valid && v.packet == []
                  else v.fsm == Idle && v.tx == Stall && v.rx == Stall)
            else
              && v == u.(datasize := v.datasize, buffer := v.buffer, rx := v.rx, tx := v.tx, fsm := v.fsm)
              && (if m'.stage == Writing then Receiving(v) else v.fsm == Idle && v.tx == Stall && v.rx == Stall)
  {
    RunAgrees(chip, m, d, es);
    PacketDispatches(chip, Run(chip, d, es).tgt, Watch(chip, m, d, es), Run(chip, d, es).usb, p);
  }

  lemma PacketDispatches(chip: Chip, t: Target, m: Log, u: Usb, p: seq<Byte>)
    requires chip.Valid() && chip.Holds(t.mem) && Inv(u) && Agrees(m, u) && Receiving(u)
    ensures var m', v := Observe(m, OutPacket(p)), ControlOut(chip, t, u, p);
            if m'.stage == Confirming then
              var w := RecvChunk(u.(rx := Nak), p).1;
              var (handled, x) := Dispatch(chip, t, w);
              && |m'.got| == u.req.wLength <= TRANSFER_SIZE
              && w.req == u.req && w.dfu == u.dfu && w.buffer[..u.req.wLength] == m'.got
              && v == Answered(handled, x) && !Receiving(v)
              && (if handled then v.fsm == StatusIn && v.tx == Valid && v.packet == []
                  else v.fsm == Idle && v.tx == Stall && v.rx == Stall)
            else
              && v == u.(datasize := v.datasize, buffer := v.buffer, rx := v.rx, tx := v.tx, fsm := v.fsm)
              && (if m'.stage == Writing then Receiving(v) else v.fsm == Idle && v.tx == Stall && v.rx == Stall)
  {
    hide Dispatch;
    ChunkAgrees(m, u, p);
    RecvChunkKeeps(u.(rx := Nak), p);
    var (ok, v) := RecvChunk(u.(rx := Nak), p);
    if ok && u.fsm == LastDataOut {
      DispatchRelates(chip, t, v);
    }
  }

  /** A command is executed nowhere but at the end of a status query, as the record shows it: its status stage is
      acknowledged, and the query was one. */
  lemma ExecutesOnPoll(chip: Chip, m: Log, d: Dev, es: seq<Event>, e: Event)
    requires Good(chip, d) && CoveredRun(es) && Agrees(m, d.usb) && Executes(Run(chip, d, es).usb, e)
    ensures var m' := Watch(chip, m, d, es);
            AsksStatus(m'.req) && m'.stage == (if e == InTaken then Confirming else Reading)
  {
    hide Run, Watch, Waiting;
    RunAgrees(chip, m, d, es);
  }

  /** For each command executed along a run, which of the record's downloads was the latest then. */
  function Origins(chip: Chip, m: Log, d: Dev, es: seq<Event>): (os: seq<int>)
    requires Good(chip, d) && CoveredRun(es)
  {
    if es == [] then []
    else
      var init, e := es[..|es| - 1], es[|es| - 1];
      var d' := Run(chip, d, init);
      Origins(chip, m, d, init)
      + (if Alive(d') && Executes(d'.usb, e) then [|Watch(chip, m, d, init).sent| - 1] else [])
  }

  predicate Increasing(s: seq<int>) {
    forall i, j :: 0 <= i < j < |s| ==> s[i] < s[j]
  }

  /** Command k of a run is download os[k], with exactly the bytes the host sent for it. */
  predicate Accounts(m: Log, os: seq<int>, cs: seq<Command>) {
    && |cs| == |os|
    && forall k :: 0 <= k < |cs| ==> 0 <= os[k] < |m.sent| && cs[k].Valid() && m.sent[os[k]].Matches(cs[k])
  }

  /** No download has been executed twice, and a pending one not at all. */
  predicate Fresh(m: Log, os: seq<int>, u: Usb) {
    && Increasing(os)
    && (forall k :: 0 <= k < |os| ==> os[k] < |m.sent|)
    && (u.dfu.state.Pending() ==> forall k :: 0 <= k < |os| ==> os[k] < |m.sent| - 1)
  }

  lemma FreshStep(m: Log, os: seq<int>, u: Usb, e: Event, m': Log, v: Usb)
    requires Fresh(m, os, u) && Follows(m, u, e, m', v)
    ensures Executes(u, e) ==> Fresh(m', os + [|m.sent| - 1], v)
    ensures !Executes(u, e) ==> Fresh(m', os, v)
  {
    assert |m.sent| <= |m'.sent|;
  }

  lemma AccountsStep(m: Log, os: seq<int>, cs: seq<Command>, u: Usb, e: Event, m': Log)
    requires Agrees(m, u) && Accounts(m, os, cs) && m.sent <= m'.sent
    ensures Executes(u, e) ==> Accounts(m', os + [|m.sent| - 1], cs + [u.dfu.prog])
    ensures !Executes(u, e) ==> Accounts(m', os, cs)
  {
    assert forall k :: 0 <= k < |m.sent| ==> m'.sent[k] == m.sent[k];
  }

  /** Each download is executed at most once, in order, and with exactly the bytes the host sent for it. */
  lemma {:induction false} AtMostOnce(chip: Chip, m: Log, d: Dev, es: seq<Event>)
    requires Good(chip, d) && CoveredRun(es) && Agrees(m, d.usb)
    ensures var m', os := Watch(chip, m, d, es), Origins(chip, m, d, es);
            && Accounts(m', os, Executed(chip, d, es)) && Increasing(os)
            && Fresh(m', os, Run(chip, d, es).usb) && m.sent <= m'.sent
  {
    hide Step, Completes, Executes, Observe, Accounts, Fresh, Follows, Agrees;
    if es == [] {
      NothingExecuted(m, d.usb);
    } else {
      var init, e := es[..|es| - 1], es[|es| - 1];
      AtMostOnce(chip, m, d, init);
      RunAgrees(chip, m, d, init);
      var d', m' := Run(chip, d, init), Watch(chip, m, d, init);
      var os, cs := Origins(chip, m, d, init), Executed(chip, d, init);
      StepAgrees(chip, m', d', e);
      ExecutesCompletes(d'.usb, e);
      assert os + [] == os && cs + [] == cs;
      if Alive(d') {
        var next := if Completes(d'.usb, e) then Observe(m', e) else m';
        FollowsGrows(m', d'.usb, e, next, Step(chip, d', e).usb);
        FreshStep(m', os, d'.usb, e, next, Step(chip, d', e).usb);
        AccountsStep(m', os, cs, d'.usb, e, next);
      } else {
        DeadStep(chip, d', e);
      }
      FreshIncreasing(Watch(chip, m, d, es), Origins(chip, m, d, es), Run(chip, d, es).usb);
    }
  }

  lemma DeadStep(chip: Chip, d: Dev, e: Event)
    requires Good(chip, d) && CoveredEvent(e) && !Alive(d)
    ensures Step(chip, d, e) == d
  {
  }

  lemma FollowsGrows(m: Log, u: Usb, e: Event, m': Log, v: Usb)
    requires Follows(m, u, e, m', v)
    ensures m.sent <= m'.sent
  {
  }

  lemma NothingExecuted(m: Log, u: Usb)
    ensures Accounts(m, [], []) && Fresh(m, [], u)
  {
  }

  lemma FreshIncreasing(m: Log, os: seq<int>, u: Usb)
    requires Fresh(m, os, u)
    ensures Increasing(os)
  {
  }

  /** The device address is that of the last SET_ADDRESS whose status stage completed since the last bus
      reset, 0 if there was none. The record takes any address from any completed status stage; that refused
      requests complete none is what makes this hold. */
  lemma AddressLatched(chip: Chip, m: Log, d: Dev, es: seq<Event>)
    requires Good(chip, d) && CoveredRun(es) && Agrees(m, d.usb)
    ensures Run(chip, d, es).usb.daddr == Watch(chip, m, d, es).address
  {
    hide Step, Observe, Waiting;
    RunAgrees(chip, m, d, es);
  }

  /** The device as it leaves stage 2's start-up code. */
  function PowerOn(chip: Chip, mem: seq<Byte>): (d: Dev)
    requires chip.Valid() && chip.Holds(mem)
    ensures Good(chip, d) && Agrees(Log(d.usb.req, Quiet, [], [], 0), d.usb)
    ensures d.usb.fsm == Idle && d.usb.dfu.state.Code() == 2 && d.usb.daddr == 0 && d.tgt == Target(mem, 0, false)
  {
    var zeros: seq<Byte> := seq(TRANSFER_SIZE, _ => 0);
    var off := Endpoint(Disabled, Disabled);
    Dev(Usb(Idle, 0, 0, false, Setup(0, 0, 0, 0, 0), false, false, Disabled, Disabled, seq(7, _ => off),
            [], 0, zeros, Dfu(DfuIdle, Command(0, 0, zeros))),
        Target(mem, 0, false))
  }
}
