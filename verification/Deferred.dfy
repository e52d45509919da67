/** Deferred execution: a recorded command outlives all traffic that does not replace or cancel it, and the
    first status stage of a GETSTATUS executes it, once. */
module Deferred {
  import opened Words
  import opened Flash
  import opened Commands
  import opened DfuRequests
  import opened Control
  import opened Device
  import opened Download
  import opened RequestLaws

  /** The requests that replace or cancel a recorded command. */
  predicate Drops(req: Setup) {
    req.ForDfu() && req.bRequest in {DFU_DNLOAD, DFU_ABORT, DFU_DETACH, DFU_UPLOAD}
  }

  predicate Spares(e: Event) {
    e.SetupPacket? && Whole(e.bytes) ==> !Drops(Decode(e.bytes[..8]))
  }

  /** No transfer is open that would still drop the command. */
  predicate Undisturbed(u: Usb) {
    Receiving(u) ==> !Drops(u.req)
  }

  predicate Waits(u: Usb) {
    Undisturbed(u) && (u.dfu.state.Pending() || u.dfu.state == DnloadIdle)
  }

  /** Same command, and still pending or not. */
  predicate SameCommand(u: Usb, v: Usb) {
    && v.dfu.prog == u.dfu.prog
    && (v.dfu.state.Pending() == u.dfu.state.Pending())
    && (v.dfu.state == DnloadIdle) == (u.dfu.state == DnloadIdle)
  }

  lemma DispatchSpares(chip: Chip, t: Target, u: Usb)
    requires chip.Valid() && chip.Holds(t.mem) && u.Sized() && NamesEndpoint(u.req) && !Drops(u.req)
    ensures SameCommand(u, Dispatch(chip, t, u).1)
  {
    PendingExactly(chip, t, u.dfu, u.req, u.buffer, u.req.wLength);
    hide DfuRequest, StandardRequest;
  }

  lemma ReadSpares(chip: Chip, t: Target, u: Usb)
    requires chip.Valid() && chip.Holds(t.mem) && u.Sized() && Covered(u.req) && !Drops(u.req)
    requires u.req.DeviceToHost() || u.req.wLength == 0
    ensures SameCommand(u, SetupRead(chip, t, u)) && !Receiving(SetupRead(chip, t, u))
  {
    hide Dispatch, StartReply, Covered, Drops;
    var v := u.(dataoff := 0);
    DispatchSpares(chip, t, v);
    ReplyFits(chip, t, v);
    var (ok, w) := Dispatch(chip, t, v);
    if ok {
      StartReplyKeeps(w);
    }
  }

  lemma SetupSpares(chip: Chip, t: Target, u: Usb, p: seq<Byte>)
    requires chip.Valid() && chip.Holds(t.mem) && u.Sized()
    requires CoveredEvent(SetupPacket(p)) && Spares(SetupPacket(p))
    ensures SameCommand(u, ControlSetup(chip, t, u, p)) && Undisturbed(ControlSetup(chip, t, u, p))
  {
    hide SetupRead, Received, Drops;
    if Whole(p) {
      var v := NakSet(u.(tx := Nak, callback := false), true).(req := Received(u, p));
      if v.req.DeviceToHost() || v.req.wLength == 0 {
        ReadSpares(chip, t, v);
      }
    }
    hide Covered;
  }

  lemma OutSpares(chip: Chip, t: Target, u: Usb, p: seq<Byte>)
    requires chip.Valid() && chip.Holds(t.mem) && Inv(u) && Undisturbed(u) && Receiving(u)
    ensures SameCommand(u, ControlOut(chip, t, u, p)) && Undisturbed(ControlOut(chip, t, u, p))
  {
    hide Dispatch, RecvChunk, Drops;
    RecvChunkKeeps(u.(rx := Nak), p);
    var (ok, v) := RecvChunk(u.(rx := Nak), p);
    if ok && u.fsm == LastDataOut {
      DispatchSpares(chip, t, v);
      DispatchRelates(chip, t, v);
    }
    hide Covered;
  }

  lemma OtherOutSpares(chip: Chip, t: Target, u: Usb, p: seq<Byte>)
    requires chip.Valid() && chip.Holds(t.mem) && Inv(u) && Waits(u) && !Receiving(u)
    requires Completes(u, OutPacket(p))
    ensures Kept(u, OutPacket(p), ControlOut(chip, t, u, p))
  {
    hide Dispatch, RecvChunk, Covered, Drops;
  }

  lemma InSpares(u: Usb)
    requires Inv(u) && Waits(u) && Completes(u, InTaken)
    ensures Kept(u, InTaken, ControlIn(u))
  {
    hide Covered, Drops, SendChunk;
    if u.fsm == DataIn {
      SendChunkKeeps(u.(tx := Nak));
    }
  }

  /** An event takes u to v: the command is executed and no longer pending, or it is as it was. */
  predicate Kept(u: Usb, e: Event, v: Usb) {
    && Waits(v) && v.dfu.prog == u.dfu.prog
    && (Executes(u, e) ==> u.dfu.state.Pending() && v.dfu.state == DnloadIdle)
    && (!Executes(u, e) ==> SameCommand(u, v))
  }

  lemma StepDefers(chip: Chip, d: Dev, e: Event)
    requires Good(chip, d) && Waits(d.usb) && CoveredEvent(e) && Spares(e)
    ensures Kept(d.usb, e, Step(chip, d, e).usb)
  {
    hide ControlSetup, ControlOut, ControlIn, Covered, Drops, Whole;
    if Completes(d.usb, e) {
      match e
      case Reset =>
      case SetupPacket(p) => SetupSpares(chip, d.tgt, d.usb, p);
      case OutPacket(p) =>
        if Receiving(d.usb) {
          OutSpares(chip, d.tgt, d.usb, p);
        } else {
          OtherOutSpares(chip, d.tgt, d.usb, p);
          hide Kept;
        }
      case InTaken =>
        InSpares(d.usb);
        hide Kept;
    }
  }

  /** How a run from d to r, with the commands cs executed on the way, treats the command of d. */
  predicate Outcome(chip: Chip, d: Dev, r: Dev, cs: seq<Command>)
    requires chip.Holds(d.tgt.mem) && (d.usb.dfu.state.Pending() ==> d.usb.dfu.prog.Valid())
  {
    && Waits(r.usb) && r.usb.dfu.prog == d.usb.dfu.prog
    && if d.usb.dfu.state.Pending() && cs != [] then
         cs == [d.usb.dfu.prog] && r.usb.dfu.state == DnloadIdle && r.tgt == Apply(chip, d.tgt, d.usb.dfu.prog)
       else cs == [] && r.usb.dfu.state.Pending() == d.usb.dfu.state.Pending() && r.tgt == d.tgt
  }

  /** Over every run that spares the recorded command it is still pending and nothing has been executed, or it
      has been executed exactly once and nothing else has. */
  lemma {:induction false} ExactlyOnce(chip: Chip, d: Dev, es: seq<Event>)
    requires Good(chip, d) && Waits(d.usb) && CoveredRun(es)
    requires forall e :: e in es ==> Spares(e)
    ensures Outcome(chip, d, Run(chip, d, es), Executed(chip, d, es))
  {
    hide Waits, Executes, Inv, UsbStep, Spares, Apply;
    if es != [] {
      var init, e := es[..|es| - 1], es[|es| - 1];
      ExactlyOnce(chip, d, init);
      WaitsAlive(Run(chip, d, init));
      StepDefers(chip, Run(chip, d, init), e);
      ExecutesCompletes(Run(chip, d, init).usb, e);
    }
  }

  lemma WaitsAlive(d: Dev)
    requires Waits(d.usb)
    ensures Alive(d) && (d.usb.dfu.state.Pending() || d.usb.dfu.state == DnloadIdle)
  {
  }

  lemma StatusSpares(iface: U16)
    ensures forall e :: e in GetStatus(iface) ==> Spares(e)
  {
    StatusDecodes(iface);
    hide Encode, Decode, Whole;
  }

  /** A recorded command survives any such run, and a completed GETSTATUS at its end leaves it executed exactly
      once, whether at that poll or at one before. */
  lemma SurvivesAndExecutes(chip: Chip, d: Dev, es: seq<Event>, iface: U16)
    requires Good(chip, d) && d.usb.dfu.state.Pending() && Undisturbed(d.usb) && d.usb.rx != Disabled
    requires CoveredRun(es) && forall e :: e in es ==> Spares(e)
    ensures CoveredRun(es + GetStatus(iface))
    ensures Executed(chip, d, es + GetStatus(iface)) == [d.usb.dfu.prog]
    ensures Run(chip, d, es + GetStatus(iface)).tgt == Apply(chip, d.tgt, d.usb.dfu.prog)
  {
    hide Run, Executed, Inv, Spares, Apply, GetStatus, Undisturbed, Waits;
    WaitsFrom(d.usb);
    ExactlyOnce(chip, d, es);
    var r := Run(chip, d, es);
    WaitsAlive(r);
    RunKeepsReady(chip, d, es);
    StatusSpares(iface);
    ExactlyOnce(chip, r, GetStatus(iface));
    if r.usb.dfu.state.Pending() {
      GetStatusRuns(chip, r, iface);
    }
    RunConcat(chip, d, es, GetStatus(iface));
    ExecutedConcat(chip, d, es, GetStatus(iface));
  }

  lemma WaitsFrom(u: Usb)
    requires Undisturbed(u) && u.dfu.state.Pending()
    ensures Waits(u)
  {
  }

  /** From the packets: a DNLOAD, then any traffic that spares it, then a completed GETSTATUS; after the
      DNLOAD exactly one command is executed, and it is the one the host sent. */
  lemma DownloadExecutesOnce(chip: Chip, d: Dev, block: U16, iface: U16, data: seq<Byte>, es: seq<Event>)
    returns (c: Command)
    requires Good(chip, d) && Alive(d) && d.usb.rx != Disabled && 1 <= |data| <= TRANSFER_SIZE
    requires CoveredRun(es) && forall e :: e in es ==> Spares(e)
    ensures Carries(c, Block(block, data)) && CoveredRun(es + GetStatus(iface))
    ensures var r := Run(chip, d, Dnload(block, iface, data));
            && Executed(chip, r, es + GetStatus(iface)) == [c]
            && Run(chip, r, es + GetStatus(iface)).tgt == Apply(chip, d.tgt, c)
  {
    hide Run, Executed, Inv, Spares, Apply, GetStatus, Dnload;
    DnloadRuns(chip, d, block, iface, data);
    var r := Run(chip, d, Dnload(block, iface, data));
    c := r.usb.dfu.prog;
    SurvivesAndExecutes(chip, r, es, iface);
  }
}
