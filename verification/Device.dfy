/** The running bootloader: control state plus flash target, stepped by bus events, and the
    invariants of every run. */
module Device {
  import opened Words
  import opened Flash
  import opened Commands
  import opened DfuRequests
  import opened Control
  import opened CommandRuns

  /** What the bus can do to the device between two polls. */
  datatype Event = Reset | SetupPacket(bytes: seq<Byte>) | OutPacket(data: seq<Byte>) | InTaken

  datatype Dev = Dev(usb: Usb, tgt: Target)

  /** In the manifest state the main loop resets the system, so nothing is polled any more. */
  predicate Alive(d: Dev) {
    d.usb.dfu.state != Manifest
  }

  /** A transaction completes only on an armed direction; setup packets reach any enabled endpoint. */
  predicate Completes(u: Usb, e: Event) {
    match e
    case Reset => true
    case SetupPacket(_) => u.rx != Disabled
    case OutPacket(_) => u.rx == Valid
    case InTaken => u.tx == Valid
  }

  /** A status stage ends here with the GETSTATUS callback registered and a command busy: the only
      point where a recorded command is executed. */
  predicate Executes(u: Usb, e: Event) {
    && Completes(u, e)
    && u.callback && u.dfu.state == DnBusy
    && ((e.OutPacket? && u.fsm == StatusOut) || (e.InTaken? && u.fsm == StatusIn))
  }

  /** The events this model covers: every event whose setup packet, if it is one, is Covered. */
  predicate CoveredEvent(e: Event) {
    e.SetupPacket? && Whole(e.bytes) ==> Covered(Decode(e.bytes[..8]))
  }

  /** In the data stage of a write. */
  predicate Receiving(u: Usb) {
    u.fsm == DataOut || u.fsm == LastDataOut
  }

  predicate Good(chip: Chip, d: Dev) {
    chip.Valid() && chip.Holds(d.tgt.mem) && Inv(d.usb)
  }

  function UsbStep(chip: Chip, t: Target, u: Usb, e: Event): (r: Usb)
    requires chip.Valid() && chip.Holds(t.mem) && Inv(u) && Completes(u, e) && CoveredEvent(e)
    ensures r.Sized()
  {
    match e
    case Reset => BusReset(u)
    case SetupPacket(p) => ControlSetup(chip, t, u, p)
    case OutPacket(p) => ControlOut(chip, t, u, p)
    case InTaken => ControlIn(u)
  }

  /** One event, and the poll that serves it. */
  function Step(chip: Chip, d: Dev, e: Event): (r: Dev)
    requires Good(chip, d) && CoveredEvent(e)
  {
    if !Alive(d) || !Completes(d.usb, e) then d
    else Dev(UsbStep(chip, d.tgt, d.usb, e),
             if Executes(d.usb, e) then Apply(chip, d.tgt, d.usb.dfu.prog) else d.tgt)
  }

  // ---- Every step keeps the invariant --------------------------------------------------------

  /** A DNLOAD that carries data. */
  predicate IsDownload(req: Setup) {
    req.ForDfu() && req.bRequest == DFU_DNLOAD && req.wLength != 0
  }

  /** What any dispatch leaves as it was, and what a handled request guarantees: only a DNLOAD with data
      records a command, with the first bytes of the control buffer as its payload. */
  predicate Dispatched(u: Usb, ok: bool, w: Usb)
    requires u.Sized()
  {
    && w.Sized()
    && w.fsm == u.fsm && w.dataoff == u.dataoff && w.needsZlp == u.needsZlp && w.req == u.req
    && w.forceNak == u.forceNak && w.packet == u.packet && w.daddr == u.daddr
    && (u.tx != Valid ==> w.tx != Valid) && (u.rx != Disabled ==> w.rx != Disabled)
    && (w.callback ==> u.callback || (u.req.bmRequestType % 0x80 == 0x21 && u.req.bRequest == 3))
    && (ok && u.req.bmRequestType == 0 && u.req.bRequest == SET_ADDRESS ==> u.req.wValue < 128)
    && (w.dfu.state.Pending() ==>
          if IsDownload(u.req) then
            && ok && w.dfu.prog.Valid() && w.dfu.prog.block == u.req.wValue
            && w.dfu.prog.Payload() == u.buffer[..Min(u.req.wLength, TRANSFER_SIZE)]
            && w.dfu.prog.buf[w.dfu.prog.len..] == u.dfu.prog.buf[w.dfu.prog.len..]
          else u.dfu.state.Pending() && w.dfu.prog == u.dfu.prog)
  }

  lemma DispatchRelates(chip: Chip, t: Target, u: Usb)
    requires chip.Valid() && chip.Holds(t.mem) && u.Sized() && Covered(u.req)
    requires u.dfu.state.Pending() ==> u.dfu.prog.Valid()
    ensures Dispatched(u, Dispatch(chip, t, u).0, Dispatch(chip, t, u).1)
  {
    hide GetDescriptor, InterfaceRequest, EndpointRequest;
  }

  /** Receiving a packet touches the buffer, its fill level and the endpoint status; a short one ends in
      Idle. */
  lemma RecvChunkKeeps(u: Usb, p: seq<Byte>)
    requires u.Sized() && u.datasize < u.req.wLength <= TRANSFER_SIZE
    ensures var (ok, v) := RecvChunk(u, p);
            && v == u.(datasize := v.datasize, buffer := v.buffer, rx := v.rx, tx := v.tx, fsm := v.fsm)
            && (ok ==> v.fsm == u.fsm && v.tx == u.tx) && (!ok ==> v.fsm == Idle && v.tx == Stall && v.rx == Stall)
            && (u.rx != Disabled ==> v.rx != Disabled)
  {
  }

  lemma SendChunkKeeps(u: Usb)
    requires u.Sized() && u.dataoff + u.datasize <= TRANSFER_SIZE
    ensures var v := SendChunk(u);
            && v == u.(fsm := v.fsm, dataoff := v.dataoff, datasize := v.datasize, needsZlp := v.needsZlp,
                       packet := v.packet, tx := v.tx)
            && (v.fsm == DataIn || v.fsm == LastDataIn)
  {
  }

  lemma StartReplyKeeps(u: Usb)
    requires u.Sized() && u.dataoff == 0 && Min(u.datasize, u.req.wLength) <= TRANSFER_SIZE
    ensures var v := StartReply(u);
            && v == u.(fsm := v.fsm, dataoff := v.dataoff, datasize := v.datasize, needsZlp := v.needsZlp,
                       packet := v.packet, tx := v.tx)
            && (if u.req.wLength == 0 then v.fsm == StatusIn else v.fsm == DataIn || v.fsm == LastDataIn)
  {
    hide NeedsZlp;
  }

  lemma SetupKeepsInv(chip: Chip, t: Target, u: Usb, p: seq<Byte>)
    requires chip.Valid() && chip.Holds(t.mem) && Inv(u) && CoveredEvent(SetupPacket(p))
    ensures Inv(ControlSetup(chip, t, u, p))
  {
    hide Dispatch, Received;
    if Whole(p) {
      var v := NakSet(u.(tx := Nak, callback := false), true).(req := Received(u, p), dataoff := 0);
      DispatchRelates(chip, t, v);
      if v.req.DeviceToHost() || v.req.wLength == 0 {
        ReplyFits(chip, t, v);
      }
    }
  }

  lemma OutKeepsInv(chip: Chip, t: Target, u: Usb, p: seq<Byte>)
    requires chip.Valid() && chip.Holds(t.mem) && Inv(u)
    ensures Inv(ControlOut(chip, t, u, p))
  {
    hide Dispatch;
    if u.fsm == LastDataOut {
      var (ok, v) := RecvChunk(u.(rx := Nak), p);
      DispatchRelates(chip, t, v);
    }
  }

  lemma InKeepsInv(u: Usb)
    requires Inv(u)
    ensures Inv(ControlIn(u))
  {
  }

  lemma StepKeepsGood(chip: Chip, d: Dev, e: Event)
    requires Good(chip, d) && CoveredEvent(e)
    ensures Good(chip, Step(chip, d, e))
  {
    if Alive(d) && Completes(d.usb, e) {
      match e
      case Reset =>
      case SetupPacket(p) => SetupKeepsInv(chip, d.tgt, d.usb, p);
      case OutPacket(p) => OutKeepsInv(chip, d.tgt, d.usb, p);
      case InTaken => InKeepsInv(d.usb);
    }
  }

  // ---- Runs ----------------------------------------------------------------------------------

  predicate CoveredRun(es: seq<Event>) {
    forall e :: e in es ==> CoveredEvent(e)
  }

  /** The device after a list of events. */
  function Run(chip: Chip, d: Dev, es: seq<Event>): (r: Dev)
    requires Good(chip, d) && CoveredRun(es)
    ensures Good(chip, r)
  {
    if es == [] then d
    else
      var d' := Run(chip, d, es[..|es| - 1]);
      StepKeepsGood(chip, d', es[|es| - 1]);
      Step(chip, d', es[|es| - 1])
  }

  /** The commands executed along a run, in order. */
  function Executed(chip: Chip, d: Dev, es: seq<Event>): (cs: seq<Command>)
    requires Good(chip, d) && CoveredRun(es)
    ensures forall c :: c in cs ==> c.Valid()
  {
    if es == [] then []
    else
      var d' := Run(chip, d, es[..|es| - 1]);
      Executed(chip, d, es[..|es| - 1])
      + (if Alive(d') && Executes(d'.usb, es[|es| - 1]) then [d'.usb.dfu.prog] else [])
  }

  /** Flash, address pointer and wipe flag after any run are the executed commands applied in order:
      nothing else the host can do reaches them. */
  lemma {:induction false} RunAppliesExecuted(chip: Chip, d: Dev, es: seq<Event>)
    requires Good(chip, d) && CoveredRun(es)
    ensures Run(chip, d, es).tgt == ApplyAll(chip, d.tgt, Executed(chip, d, es))
  {
    hide UsbStep;
    if es != [] {
      var init, e := es[..|es| - 1], es[|es| - 1];
      RunAppliesExecuted(chip, d, init);
      var d' := Run(chip, d, init);
      var before, all := Executed(chip, d, init), Executed(chip, d, es);
      if Alive(d') && Executes(d'.usb, e) {
        assert all[..|all| - 1] == before;
      } else {
        assert all == before;
      }
    }
  }

  lemma {:induction false} RunConcat(chip: Chip, d: Dev, es: seq<Event>, fs: seq<Event>)
    requires Good(chip, d) && CoveredRun(es) && CoveredRun(fs)
    ensures CoveredRun(es + fs)
    ensures Run(chip, d, es + fs) == Run(chip, Run(chip, d, es), fs)
  {
    hide Step;
    if fs == [] {
      assert es + fs == es;
    } else {
      var f := fs[..|fs| - 1];
      RunConcat(chip, d, es, f);
      assert (es + fs)[..|es + fs| - 1] == es + f;
    }
  }

  lemma {:induction false} RunOne(chip: Chip, d: Dev, e: Event)
    requires Good(chip, d) && CoveredEvent(e)
    ensures CoveredRun([e]) && Run(chip, d, [e]) == Step(chip, d, e)
  {
    hide Step;
    assert [e][..|[e]| - 1] == [];
    assert Run(chip, d, []) == d;
  }

  lemma RunCons(chip: Chip, d: Dev, e: Event, es: seq<Event>)
    requires Good(chip, d) && CoveredRun([e] + es)
    ensures CoveredEvent(e) && Good(chip, Step(chip, d, e)) && CoveredRun(es)
    ensures Run(chip, d, [e] + es) == Run(chip, Step(chip, d, e), es)
  {
    hide Step, Run;
    assert CoveredEvent(([e] + es)[0]);
    assert forall x :: x in es ==> x in [e] + es;
    RunOne(chip, d, e);
    RunConcat(chip, d, [e], es);
  }

  lemma ExecutesCompletes(u: Usb, e: Event)
    ensures Executes(u, e) ==> Completes(u, e)
  {
  }

  lemma {:induction false} ExecutedConcat(chip: Chip, d: Dev, es: seq<Event>, fs: seq<Event>)
    requires Good(chip, d) && CoveredRun(es) && CoveredRun(fs)
    ensures CoveredRun(es + fs)
    ensures Executed(chip, d, es + fs) == Executed(chip, d, es) + Executed(chip, Run(chip, d, es), fs)
  {
    hide Run, Good, Alive, Executes;
    if fs == [] {
      assert es + fs == es;
    } else {
      var f := fs[..|fs| - 1];
      ExecutedConcat(chip, d, es, f);
      RunConcat(chip, d, es, f);
      var all := es + fs;
      assert all[..|all| - 1] == es + f && all[|all| - 1] == fs[|fs| - 1];
      hide CoveredRun;
    }
  }

  lemma ExecutedOne(chip: Chip, d: Dev, e: Event)
    requires Good(chip, d) && CoveredEvent(e)
    ensures CoveredRun([e])
    ensures Executed(chip, d, [e]) == if Alive(d) && Executes(d.usb, e) then [d.usb.dfu.prog] else []
  {
    hide Step, Executes;
    var none: seq<Event> := [];
    assert [e][..|[e]| - 1] == none;
    assert Run(chip, d, none) == d && Executed(chip, d, none) == [];
  }

  lemma ExecutedCons(chip: Chip, d: Dev, e: Event, es: seq<Event>)
    requires Good(chip, d) && CoveredRun([e] + es)
    ensures CoveredEvent(e) && Good(chip, Step(chip, d, e)) && CoveredRun(es)
    ensures Executed(chip, d, [e] + es)
            == (if Alive(d) && Executes(d.usb, e) then [d.usb.dfu.prog] else [])
               + Executed(chip, Step(chip, d, e), es)
  {
    hide Step, Run, Executed, Executes, Alive;
    RunCons(chip, d, e, es);
    RunOne(chip, d, e);
    ExecutedOne(chip, d, e);
    ExecutedConcat(chip, d, [e], es);
  }

  /** Over any run the address pointer is that of the last executed command that sets it. */
  lemma RunPointer(chip: Chip, d: Dev, es: seq<Event>)
    requires Good(chip, d) && CoveredRun(es)
    ensures var cs, r := Executed(chip, d, es), Run(chip, d, es);
            && (forall j :: 0 <= j < |cs| && SetsPointer(cs[j]) && (forall k :: j < k < |cs| ==> !SetsPointer(cs[k]))
                  ==> r.tgt.addr == Le32(cs[j].buf, 1))
            && ((forall c :: c in cs ==> !SetsPointer(c)) ==> r.tgt.addr == d.tgt.addr)
  {
    hide Run, Executed, ApplyAll, SetsPointer, Le32;
    RunAppliesExecuted(chip, d, es);
    var cs := Executed(chip, d, es);
    forall j | 0 <= j < |cs| && SetsPointer(cs[j]) && (forall k :: j < k < |cs| ==> !SetsPointer(cs[k]))
      ensures cs[j] in cs && Run(chip, d, es).tgt.addr == Le32(cs[j].buf, 1)
    {
      PointerIsLastSet(chip, d.tgt, cs, j);
    }
    if forall c :: c in cs ==> !SetsPointer(c) {
      PointerStays(chip, d.tgt, cs);
    }
  }

  /** Whatever the host sends, the first 8 kB of the flash never change. */
  lemma BootloaderSurvives(chip: Chip, d: Dev, es: seq<Event>)
    requires Good(chip, d) && CoveredRun(es)
    ensures Run(chip, d, es).tgt.mem[..BOOT_SIZE] == d.tgt.mem[..BOOT_SIZE]
  {
    RunAppliesExecuted(chip, d, es);
    var cs := Executed(chip, d, es);
    forall i | 0 <= i < BOOT_SIZE
      ensures Run(chip, d, es).tgt.mem[i] == d.tgt.mem[i]
    {
      ApplyAllKeepsBoot(chip, d.tgt, cs, i);
    }
  }
}
