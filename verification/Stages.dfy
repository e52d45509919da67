/** Data and status stages seen from the host: the armed direction never gets lost, IN replies are cut
    into packets as USB 2.0 sections 5.5.3 and 8.5.3.2 ask. */
module Stages {
  import opened Words
  import opened Flash
  import opened Commands
  import opened DfuRequests
  import opened Control
  import opened Device

  // ---- The armed direction -------------------------------------------------------------------

  /** The direction the open stage waits for is armed, and reception stays armed between packets. */
  predicate Armed(u: Usb) {
    && (u.fsm == DataIn || u.fsm == LastDataIn || u.fsm == StatusIn ==> u.tx == Valid)
    && (u.fsm == DataOut || u.fsm == LastDataOut || u.fsm == StatusOut ==> u.rx == Valid && !u.forceNak)
  }

  lemma SetupArms(chip: Chip, t: Target, u: Usb, p: seq<Byte>)
    requires chip.Valid() && chip.Holds(t.mem) && Inv(u) && CoveredEvent(SetupPacket(p))
    ensures Armed(ControlSetup(chip, t, u, p))
  {
    hide Dispatch, Received, SetupRead;
    if Whole(p) {
      var v := NakSet(u.(tx := Nak, callback := false), true).(req := Received(u, p));
      if v.req.DeviceToHost() || v.req.wLength == 0 {
        ReadArms(chip, t, v);
      }
    }
  }

  lemma ReadArms(chip: Chip, t: Target, u: Usb)
    requires chip.Valid() && chip.Holds(t.mem) && u.Sized() && Covered(u.req) && u.tx == Nak
    requires u.dfu.state.Pending() ==> u.dfu.prog.Valid()
    requires u.req.DeviceToHost() || u.req.wLength == 0
    ensures Armed(SetupRead(chip, t, u))
  {
    hide Dispatch;
    DispatchRelates(chip, t, u.(dataoff := 0));
    ReplyFits(chip, t, u.(dataoff := 0));
  }

  lemma OutKeepsArmed(chip: Chip, t: Target, u: Usb, p: seq<Byte>)
    requires chip.Valid() && chip.Holds(t.mem) && Inv(u) && Armed(u)
    ensures Armed(ControlOut(chip, t, u, p))
  {
    hide Dispatch;
    if u.fsm == LastDataOut {
      var (ok, v) := RecvChunk(u.(rx := Nak), p);
      DispatchRelates(chip, t, v);
    }
  }

  lemma InKeepsArmed(u: Usb)
    requires Inv(u) && Armed(u)
    ensures Armed(ControlIn(u))
  {
  }

  lemma StepKeepsArmed(chip: Chip, d: Dev, e: Event)
    requires Good(chip, d) && CoveredEvent(e) && e != Reset && Armed(d.usb)
    ensures Armed(Step(chip, d, e).usb)
  {
    hide ControlSetup, ControlOut, ControlIn;
    if Alive(d) && Completes(d.usb, e) {
      match e
      case SetupPacket(p) => SetupArms(chip, d.tgt, d.usb, p);
      case OutPacket(p) => OutKeepsArmed(chip, d.tgt, d.usb, p);
      case InTaken => InKeepsArmed(d.usb);
    }
  }

  /** From the first setup packet after a bus reset on, and until the next reset, no transfer ever waits
      on a disarmed direction, whatever the host sends meanwhile. */
  lemma {:induction false} TransfersStayArmed(chip: Chip, d: Dev, p: seq<Byte>, es: seq<Event>)
    requires Good(chip, d) && Alive(d) && d.usb.rx != Disabled
    requires CoveredRun([SetupPacket(p)] + es) && Reset !in es
    ensures Armed(Run(chip, d, [SetupPacket(p)] + es).usb)
  {
    hide Armed, ControlSetup;
    var all := [SetupPacket(p)] + es;
    var init := all[..|all| - 1];
    if es == [] {
      assert init == [] && all[0] == SetupPacket(p);
      SetupArms(chip, d.tgt, d.usb, p);
    } else {
      assert init == [SetupPacket(p)] + es[..|es| - 1];
      assert all[|all| - 1] == es[|es| - 1];
      TransfersStayArmed(chip, d, p, es[..|es| - 1]);
      StepKeepsArmed(chip, Run(chip, d, init), all[|all| - 1]);
    }
  }

  // ---- Outside a stage -----------------------------------------------------------------------

  /** A packet that belongs to no open stage ends in a stall of both directions; nothing else moves. */
  lemma StrayPacketsStall(chip: Chip, t: Target, u: Usb, p: seq<Byte>)
    requires chip.Valid() && chip.Holds(t.mem) && Inv(u)
    ensures !Receiving(u) && u.fsm != StatusOut ==>
              ControlOut(chip, t, u, p) == u.(tx := Stall, rx := Stall, fsm := Idle)
    ensures u.fsm == Idle || Receiving(u) || u.fsm == StatusOut ==>
              ControlIn(u) == u.(tx := Stall, rx := Stall, fsm := Idle)
  {
    hide Dispatch, RecvChunk, SendChunk, Covered;
  }

  /** Such a packet stays flagged, so the driver serves it again at every poll. That changes nothing; after a bus
      reset it stalls endpoint 0 once more, until a setup packet is served as if it had not. */
  lemma StrayServedAgain(chip: Chip, d: Dev, p: seq<Byte>, q: seq<Byte>)
    requires Good(chip, d) && Alive(d) && CoveredEvent(SetupPacket(q))
    requires !Receiving(d.usb) && d.usb.fsm != StatusOut
    ensures var u := ControlOut(chip, d.tgt, d.usb, p); var r := Step(chip, Dev(u, d.tgt), Reset).usb;
            && Inv(u) && ControlOut(chip, d.tgt, u, p) == u
            && Inv(r) && ControlOut(chip, d.tgt, r, p) == r.(tx := Stall, rx := Stall)
            && ControlSetup(chip, d.tgt, ControlOut(chip, d.tgt, r, p), q) == ControlSetup(chip, d.tgt, r, q)
  {
    var u := ControlOut(chip, d.tgt, d.usb, p);
    OutKeepsInv(chip, d.tgt, d.usb, p);
    StrayPacketsStall(chip, d.tgt, d.usb, p);
    StrayPacketsStall(chip, d.tgt, u, p);
    StepKeepsGood(chip, Dev(u, d.tgt), Reset);
    var r := Step(chip, Dev(u, d.tgt), Reset).usb;
    ResetRestarts(chip, Dev(u, d.tgt));
    StrayPacketsStall(chip, d.tgt, r, p);
    SetupAfterStall(chip, d.tgt, r, q);
    hide Inv, ControlOut, ControlSetup, CoveredEvent, Step;
  }

  lemma SetupAfterStall(chip: Chip, t: Target, u: Usb, p: seq<Byte>)
    requires chip.Valid() && chip.Holds(t.mem) && u.Sized() && CoveredEvent(SetupPacket(p))
    ensures ControlSetup(chip, t, u.(tx := Stall, rx := Stall), p) == ControlSetup(chip, t, u, p)
  {
    hide Dispatch, SetupRead, SetupWrite, Covered, Encode, Decode, Overwrite;
  }

  /** A setup packet that is cut short, or announces more data than the control buffer holds, is refused. */
  lemma BadSetupsStall(chip: Chip, t: Target, u: Usb, p: seq<Byte>)
    requires chip.Valid() && chip.Holds(t.mem) && Inv(u) && CoveredEvent(SetupPacket(p))
    requires |p| < 8 || (Whole(p) && Le16(p, 6) > 4096 && p[0] < 0x80)
    ensures var v := ControlSetup(chip, t, u, p);
            v.fsm == Idle && v.tx == Stall && v.rx == Stall && v.dfu == u.dfu && v.daddr == u.daddr && !v.callback
  {
    hide Dispatch, SetupRead, Encode, Overwrite;
  }

  /** The status packet of a read, of any length, ends the transfer: idle, no callback left, reception armed. */
  lemma StatusPacketEnds(chip: Chip, t: Target, u: Usb, p: seq<Byte>)
    requires chip.Valid() && chip.Holds(t.mem) && Inv(u) && Armed(u) && u.fsm == StatusOut
    ensures var v := ControlOut(chip, t, u, p);
            && v == u.(fsm := Idle, callback := false, rx := Valid, dfu := v.dfu)
            && (v.dfu == u.dfu || (u.callback && u.dfu.state == DnBusy && v.dfu == u.dfu.(state := DnloadIdle)))
  {
    hide Dispatch, RecvChunk, Covered;
  }

  /** After a bus reset endpoint 0 waits for a setup packet at address 0, the other endpoints are off, and the
      transfer variables are what they were. */
  lemma ResetRestarts(chip: Chip, d: Dev)
    requires Good(chip, d) && Alive(d)
    ensures var r := Step(chip, d, Reset);
            && r.tgt == d.tgt && r.usb.tx == Nak && r.usb.rx == Valid && r.usb.daddr == 0x80
            && (forall n :: 0 <= n < 7 ==> r.usb.others[n] == Endpoint(Disabled, Disabled))
            && r.usb.fsm == d.usb.fsm && r.usb.req == d.usb.req && r.usb.datasize == d.usb.datasize
            && r.usb.buffer == d.usb.buffer && r.usb.dfu == d.usb.dfu && r.usb.callback == d.usb.callback
  {
  }

  // ---- IN stages -----------------------------------------------------------------------------

  predicate Sending(u: Usb) {
    u.fsm == DataIn || u.fsm == LastDataIn
  }

  lemma SendingContinues(u: Usb)
    requires Inv(u) && Armed(u) && u.fsm == DataIn
    ensures var v := ControlIn(u);
            Inv(v) && Armed(v) && Sending(v)
            && (v.datasize < u.datasize || (v.datasize == u.datasize == 0
                && ((u.needsZlp && !v.needsZlp) || (u.needsZlp == v.needsZlp && v.fsm == LastDataIn))))
  {
  }

  /** The packets of an IN stage, from the one now armed to the last. */
  function Packets(u: Usb): (ps: seq<seq<Byte>>)
    requires Inv(u) && Armed(u) && Sending(u)
    ensures |ps| > 0
    decreases u.datasize, u.needsZlp, u.fsm == DataIn
  {
    if u.fsm == LastDataIn then [u.packet]
    else
      SendingContinues(u);
      [u.packet] + Packets(ControlIn(u))
  }

  /** Reference: data in full packets, then the rest, then an empty packet if one is owed. */
  function Cut(data: seq<Byte>, zlp: bool): (ps: seq<seq<Byte>>)
    ensures |ps| > 0
  {
    if |data| > PACKET then [data[..PACKET]] + Cut(data[PACKET..], zlp)
    else if zlp then [data, []]
    else [data]
  }

  function Join(ps: seq<seq<Byte>>): seq<Byte> {
    if ps == [] then [] else ps[0] + Join(ps[1..])
  }

  lemma SendChunkReady(u: Usb)
    requires Inv(u) && u.tx != Valid && u.dataoff + u.datasize <= TRANSFER_SIZE
    ensures Inv(SendChunk(u)) && Armed(SendChunk(u)) && Sending(SendChunk(u))
  {
  }

  lemma {:induction false} SendChunkCuts(u: Usb)
    requires Inv(u) && u.tx != Valid && u.dataoff + u.datasize <= TRANSFER_SIZE
    ensures Inv(SendChunk(u)) && Armed(SendChunk(u)) && Sending(SendChunk(u))
    ensures Packets(SendChunk(u)) == Cut(u.buffer[u.dataoff..u.dataoff + u.datasize], u.needsZlp)
    decreases u.datasize
  {
    SendChunkReady(u);
    var v := SendChunk(u);
    var data := u.buffer[u.dataoff..u.dataoff + u.datasize];
    if PACKET < u.datasize {
      FullChunk(u);
      var w := v.(tx := Nak);
      SendChunkCuts(w);
      hide SendChunk, ControlIn;
      assert data[PACKET..] == w.buffer[w.dataoff..w.dataoff + w.datasize];
      assert data[..PACKET] == v.packet;
    } else {
      FinalChunk(u);
      hide SendChunk, ControlIn;
      if u.needsZlp {
        assert Packets(ControlIn(v)) == [[]];
      }
    }
  }

  lemma FullChunk(u: Usb)
    requires Inv(u) && u.tx != Valid && u.dataoff + u.datasize <= TRANSFER_SIZE && PACKET < u.datasize
    ensures var v := SendChunk(u); var w := v.(tx := Nak);
            && v.fsm == DataIn && v.packet == u.buffer[u.dataoff..u.dataoff + PACKET]
            && w.dataoff == u.dataoff + PACKET && w.datasize == u.datasize - PACKET
            && w.buffer == u.buffer && w.needsZlp == u.needsZlp
            && Inv(v) && ControlIn(v) == SendChunk(w)
  {
  }

  lemma FinalChunk(u: Usb)
    requires Inv(u) && u.tx != Valid && u.dataoff + u.datasize <= TRANSFER_SIZE && u.datasize <= PACKET
    ensures var v := SendChunk(u);
            && v.packet == u.buffer[u.dataoff..u.dataoff + u.datasize] && Inv(v)
            && v.fsm == (if u.needsZlp then DataIn else LastDataIn)
            && (u.needsZlp ==> ControlIn(v).fsm == LastDataIn && ControlIn(v).packet == [])
  {
  }

  /** What the reference delivers: every byte in order, full packets but for the last, and an end the
      host can see: a short or empty last packet exactly when the reply is shorter than asked for or
      does not fill its last packet. */
  lemma {:induction false} CutDelivers(data: seq<Byte>, wLength: nat)
    requires |data| <= wLength
    ensures var ps := Cut(data, NeedsZlp(|data|, wLength));
            && Join(ps) == data
            && (forall k :: 0 <= k < |ps| - 1 ==> |ps[k]| == PACKET)
            && |ps[|ps| - 1]| <= PACKET
            && (|ps[|ps| - 1]| < PACKET <==> |data| < wLength || |data| % PACKET != 0 || |data| == 0)
  {
    if |data| > PACKET {
      var rest := data[PACKET..];
      CutDelivers(rest, wLength - PACKET);
      assert |rest| % PACKET == |data| % PACKET;
      assert NeedsZlp(|rest|, wLength - PACKET) == NeedsZlp(|data|, wLength);
      hide NeedsZlp;
      var ps := Cut(data, NeedsZlp(|data|, wLength));
      assert ps[1..] == Cut(rest, NeedsZlp(|rest|, wLength - PACKET));
      assert data == data[..PACKET] + rest;
    } else {
      CutShort(data, NeedsZlp(|data|, wLength));
    }
  }

  lemma CutShort(data: seq<Byte>, zlp: bool)
    requires |data| <= PACKET
    ensures Cut(data, zlp) == if zlp then [data, []] else [data]
    ensures Join(Cut(data, zlp)) == data
  {
    assert Join([]) == [];
    if zlp {
      assert [data, []][1..] == [[]] && Join([[]]) == [] + Join([[]][1..]);
    } else {
      assert [data][1..] == [];
    }
  }

  lemma ReplyIsCut(u: Usb)
    requires Inv(u.(fsm := Idle)) && u.dataoff == 0 && u.tx != Valid
    requires u.req.wLength != 0 && Min(u.datasize, u.req.wLength) <= TRANSFER_SIZE
    ensures var n, v := Min(u.datasize, u.req.wLength), StartReply(u);
            && Inv(v) && Armed(v) && Sending(v)
            && Packets(v) == Cut(u.buffer[..n], NeedsZlp(n, u.req.wLength))
  {
    hide NeedsZlp;
    var n := Min(u.datasize, u.req.wLength);
    var w := u.(datasize := n, needsZlp := NeedsZlp(n, u.req.wLength));
    assert StartReply(u) == SendChunk(w) == SendChunk(w.(fsm := Idle));
    SendChunkCuts(w.(fsm := Idle));
    hide SendChunk, StartReply;
    assert u.buffer[0..n] == u.buffer[..n];
  }

  /** The state in which a request is dispatched. */
  function AtRequest(u: Usb, req: Setup): Usb {
    NakSet(u.(tx := Nak, callback := false), true).(req := req, dataoff := 0)
  }

  /** The state in which a whole setup packet is dispatched. */
  function AtDispatch(u: Usb, p: seq<Byte>): Usb
    requires Whole(p)
  {
    AtRequest(u, Decode(p[..8]))
  }

  /** A handled read request: the IN stage sends the first min(n, wLength) of the n bytes the handler
      left in the control buffer, cut as the reference cuts them. */
  lemma ReadIsCut(chip: Chip, t: Target, u: Usb, p: seq<Byte>)
    requires chip.Valid() && chip.Holds(t.mem) && Inv(u) && Whole(p) && CoveredEvent(SetupPacket(p))
    requires Decode(p[..8]).DeviceToHost() && Decode(p[..8]).wLength != 0
    requires Dispatch(chip, t, AtDispatch(u, p)).0
    ensures var w, v := Dispatch(chip, t, AtDispatch(u, p)).1, ControlSetup(chip, t, u, p);
            var n := Min(w.datasize, Decode(p[..8]).wLength);
            && Inv(v) && Armed(v) && Sending(v) && n <= |w.buffer|
            && Packets(v) == Cut(w.buffer[..n], NeedsZlp(n, Decode(p[..8]).wLength))
  {
    hide Dispatch, StartReply, Armed, Sending, Packets, Cut, NeedsZlp;
    DispatchReady(chip, t, u, p);
    var w := Dispatch(chip, t, AtDispatch(u, p)).1;
    assert ControlSetup(chip, t, u, p) == StartReply(w);
    hide Inv, ControlSetup, AtDispatch;
    ReplyIsCut(w);
  }

  lemma DispatchReady(chip: Chip, t: Target, u: Usb, p: seq<Byte>)
    requires chip.Valid() && chip.Holds(t.mem) && Inv(u) && Whole(p) && CoveredEvent(SetupPacket(p))
    requires Decode(p[..8]).DeviceToHost() && Dispatch(chip, t, AtDispatch(u, p)).0
    ensures var w := Dispatch(chip, t, AtDispatch(u, p)).1;
            && Inv(w.(fsm := Idle)) && w.dataoff == 0 && w.tx != Valid && w.req == Decode(p[..8])
            && Min(w.datasize, w.req.wLength) <= TRANSFER_SIZE
  {
    hide Dispatch;
    var v := AtDispatch(u, p);
    DispatchRelates(chip, t, v);
    ReplyFits(chip, t, v);
    hide Covered;
  }

  /** k IN transactions. */
  function Ins(k: nat): (es: seq<Event>)
    ensures CoveredRun(es) && |es| == k
  {
    if k == 0 then [] else [InTaken] + Ins(k - 1)
  }

  /** One packet taken: the next one of the stage, or the end of it. */
  lemma InStep(chip: Chip, d: Dev)
    requires Good(chip, d) && Alive(d) && Armed(d.usb) && Sending(d.usb)
    ensures var r := Step(chip, d, InTaken);
            && Good(chip, r) && Alive(r) && Armed(r.usb) && r.tgt == d.tgt && r.usb == ControlIn(d.usb)
            && (if d.usb.fsm == DataIn then
                  Sending(r.usb) && Packets(d.usb) == [d.usb.packet] + Packets(r.usb) && r.usb.rx == d.usb.rx
                else r.usb.fsm == StatusOut && r.usb.rx == Valid && Packets(d.usb) == [d.usb.packet])
    ensures d.usb.tx == Valid
  {
    StepKeepsGood(chip, d, InTaken);
    StepKeepsArmed(chip, d, InTaken);
    if d.usb.fsm == DataIn {
      SendingContinues(d.usb);
      SendChunkKeeps(d.usb.(tx := Nak));
      hide SendChunk;
    }
  }

  /** The IN stage on the bus: after k packets have been taken packet k is the one armed, until all have been,
      and then the device waits for the status packet with reception armed. */
  lemma {:induction false} StageRuns(chip: Chip, d: Dev, k: nat)
    requires Good(chip, d) && Alive(d) && Armed(d.usb) && Sending(d.usb) && k <= |Packets(d.usb)|
    ensures var r := Run(chip, d, Ins(k));
            && r.tgt == d.tgt && Alive(r)
            && if k < |Packets(d.usb)| then
                 Sending(r.usb) && r.usb.tx == Valid && r.usb.packet == Packets(d.usb)[k] && r.usb.rx == d.usb.rx
               else r.usb.fsm == StatusOut && r.usb.rx == Valid
    decreases k
  {
    hide Step, Run, Alive, Inv, Armed, Sending, Packets;
    InStep(chip, d);
    if k == 0 {
      assert Ins(0) == [];
      RunNothing(chip, d);
    } else {
      var r := Step(chip, d, InTaken);
      RunCons(chip, d, InTaken, Ins(k - 1));
      if d.usb.fsm == DataIn {
        StageRuns(chip, r, k - 1);
      } else {
        assert k == 1 && Ins(k - 1) == [];
        RunNothing(chip, r);
      }
    }
  }

  lemma RunNothing(chip: Chip, d: Dev)
    requires Good(chip, d)
    ensures Run(chip, d, []) == d
  {
  }
}
