/** Leaving DFU mode: the zero-length DNLOAD, the poll after it, and the reset the main loop then does. */
module Leaving {
  import opened Words
  import opened Flash
  import opened Commands
  import opened DfuRequests
  import opened Control
  import opened Device
  import opened Stages
  import opened Download
  import opened Service

  /** Once in the manifest state nothing is served any more. */
  lemma {:induction false} ManifestIsFinal(chip: Chip, d: Dev, es: seq<Event>)
    requires Good(chip, d) && !Alive(d) && CoveredRun(es)
    ensures Run(chip, d, es) == d
  {
    hide UsbStep;
    if es != [] {
      ManifestIsFinal(chip, d, es[..|es| - 1]);
    }
  }

  /** The end-of-download announcement and the poll that should report it: a DNLOAD without data with its
      status stage, then the setup packet of a GETSTATUS. */
  function Announce(iface: U16): (es: seq<Event>)
    ensures CoveredRun(es)
  {
    DnloadDecodes(0, iface, 0);
    [SetupPacket(Encode(DnloadSetup(0, iface, 0))), InTaken]
  }

  function Poll(iface: U16): (es: seq<Event>)
    ensures CoveredRun(es)
  {
    StatusDecodes(iface);
    [SetupPacket(Encode(StatusSetup(iface)))]
  }

  lemma DispatchAnnounce(chip: Chip, t: Target, u: Usb)
    requires chip.Valid() && chip.Holds(t.mem) && u.Sized() && Covered(u.req)
    requires u.req.ForDfu() && u.req.bRequest == DFU_DNLOAD && u.req.wLength == 0
    ensures Dispatch(chip, t, u) == (true, u.(dfu := u.dfu.(state := ManifestSync), datasize := 0))
  {
  }

  lemma DispatchPoll(chip: Chip, t: Target, u: Usb)
    requires chip.Valid() && chip.Holds(t.mem) && u.Sized() && Covered(u.req)
    requires u.req.ForDfu() && u.req.bRequest == DFU_GETSTATUS && u.dfu.state == ManifestSync
    ensures Dispatch(chip, t, u)
            == (true, u.(dfu := u.dfu.(state := Manifest), datasize := 6, callback := true,
                         buffer := Overwrite(u.buffer, 0, StatusReply(ManifestSync))))
  {
    hide Overwrite;
  }

  lemma AnnounceAnswered(chip: Chip, t: Target, u: Usb, iface: U16)
    requires chip.Valid() && chip.Holds(t.mem) && u.Sized()
    ensures var p := Encode(DnloadSetup(0, iface, 0));
            && Whole(p) && CoveredEvent(SetupPacket(p))
            && ControlSetup(chip, t, u, p)
               == AtDispatch(u, p).(dfu := u.dfu.(state := ManifestSync), datasize := 0, fsm := StatusIn,
                                    tx := Valid, packet := [])
    ensures Decode(Encode(DnloadSetup(0, iface, 0))[..8]) == DnloadSetup(0, iface, 0)
  {
    var p := Encode(DnloadSetup(0, iface, 0));
    DnloadDecodes(0, iface, 0);
    hide Dispatch, Received, Encode, Decode, Whole;
    DispatchAnnounce(chip, t, AtDispatch(u, p));
    hide Covered;
  }

  lemma AnnounceSetup(chip: Chip, d: Dev, iface: U16)
    requires Ready(chip, d)
    ensures var e := SetupPacket(Encode(DnloadSetup(0, iface, 0)));
            var r := Step(chip, d, e);
            && CoveredEvent(e) && r.tgt == d.tgt && r.usb.dfu.state == ManifestSync && r.usb.rx != Disabled
            && r.usb.fsm == StatusIn && r.usb.tx == Valid && !r.usb.callback && r.usb.req.bmRequestType == 0x21
  {
    AnnounceAnswered(chip, d.tgt, d.usb, iface);
    hide ControlSetup, Encode, Decode, Whole, Inv;
  }

  lemma AnnounceTaken(chip: Chip, d: Dev)
    requires Good(chip, d) && d.usb.dfu.state == ManifestSync && d.usb.rx != Disabled
    requires d.usb.fsm == StatusIn && d.usb.tx == Valid && !d.usb.callback && d.usb.req.bmRequestType == 0x21
    ensures var r := Step(chip, d, InTaken);
            r.tgt == d.tgt && r.usb.dfu.state == ManifestSync && r.usb.rx != Disabled
  {
  }

  lemma PollSetup(chip: Chip, d: Dev, iface: U16)
    requires Good(chip, d) && d.usb.dfu.state == ManifestSync && d.usb.rx != Disabled
    ensures var e := SetupPacket(Encode(StatusSetup(iface)));
            var r := Step(chip, d, e);
            && CoveredEvent(e) && r.tgt == d.tgt && r.usb.dfu.state == Manifest
            && r.usb.fsm == LastDataIn && r.usb.tx == Valid && r.usb.packet == StatusReply(ManifestSync)
  {
    var p := Encode(StatusSetup(iface));
    StatusDecodes(iface);
    hide Covered, Whole, Dispatch, Received, Encode, Decode, StatusReply, Overwrite;
    var v := AtDispatch(d.usb, p);
    DispatchPoll(chip, d.tgt, v);
    assert Overwrite(v.buffer, 0, StatusReply(ManifestSync))[0..6] == StatusReply(ManifestSync);
  }

  lemma {:induction false} AnnounceRuns(chip: Chip, d: Dev, iface: U16)
    requires Ready(chip, d)
    ensures var r := Run(chip, d, Announce(iface));
            r.tgt == d.tgt && r.usb.dfu.state == ManifestSync && r.usb.rx != Disabled
  {
    hide Step, Run, Alive;
    var setup := SetupPacket(Encode(DnloadSetup(0, iface, 0)));
    AnnounceSetup(chip, d, iface);
    var d1 := Step(chip, d, setup);
    assert Announce(iface) == [setup] + [InTaken];
    RunCons(chip, d, setup, [InTaken]);
    RunOne(chip, d1, InTaken);
    AnnounceTaken(chip, d1);
  }

  /** The reset comes with the poll itself: as soon as the setup packet of the GETSTATUS after a zero-length
      DNLOAD is served, the device is in its final state with the status reply still armed, so neither the
      reply nor anything else after it ever completes. The flash is as it was. */
  lemma LeavesBeforeReply(chip: Chip, d: Dev, iface: U16, es: seq<Event>)
    requires Ready(chip, d) && CoveredRun(es)
    ensures var r := Run(chip, d, Announce(iface) + Poll(iface) + es);
            && CoveredRun(Announce(iface) + Poll(iface) + es)
            && !Alive(r) && r.tgt == d.tgt
            && r.usb.fsm == LastDataIn && r.usb.tx == Valid && r.usb.packet == StatusReply(ManifestSync)
  {
    hide Step, Run, StatusReply;
    AnnounceRuns(chip, d, iface);
    var d1 := Run(chip, d, Announce(iface));
    RunConcat(chip, d, Announce(iface), Poll(iface));
    PollSetup(chip, d1, iface);
    RunOne(chip, d1, SetupPacket(Encode(StatusSetup(iface))));
    RunConcat(chip, d, Announce(iface) + Poll(iface), es);
    ManifestIsFinal(chip, Run(chip, d, Announce(iface) + Poll(iface)), es);
  }

  /** A DETACH leaves as early: as soon as its setup packet is served, its confirmation still armed. */
  lemma DetachLeaves(chip: Chip, d: Dev, block: U16, iface: U16, es: seq<Event>)
    requires Ready(chip, d) && CoveredRun(es)
    ensures var e := SetupPacket(Encode(Setup(0x21, 0, block, iface, 0)));
            && CoveredRun([e] + es)
            && var r := Run(chip, d, [e] + es);
               r == Step(chip, d, e) && !Alive(r) && r.tgt == d.tgt && Confirming(r.usb)
  {
    var req := Setup(0x21, 0, block, iface, 0);
    var e := SetupPacket(Encode(req));
    DetachServed(chip, d, req);
    hide *;
    StepGood(chip, d, e);
    CoveredMore(e, es);
    RunCons(chip, d, e, es);
    ManifestIsFinal(chip, Step(chip, d, e), es);
  }

  lemma StepGood(chip: Chip, d: Dev, e: Event)
    requires Ready(chip, d) && CoveredEvent(e)
    ensures Good(chip, d) && Good(chip, Step(chip, d, e))
  {
    StepKeepsGood(chip, d, e);
  }

  lemma CoveredMore(e: Event, es: seq<Event>)
    requires CoveredEvent(e) && CoveredRun(es)
    ensures CoveredRun([e] + es)
  {
  }

  lemma DetachServed(chip: Chip, d: Dev, req: Setup)
    requires Ready(chip, d) && req == Setup(0x21, 0, req.wValue, req.wIndex, 0)
    ensures var e := SetupPacket(Encode(req));
            && CoveredEvent(e) && Good(chip, d)
            && var r := Step(chip, d, e); !Alive(r) && r.tgt == d.tgt && Confirming(r.usb)
  {
    DetachPromised(chip, d.tgt, d.usb, req);
    Serves(chip, d, req);
    ManifestByCode(Step(chip, d, SetupPacket(Encode(req))));
    hide Encode, Step, Inv, CoveredEvent, OthersAfter, AtRequest, Covered, Promised, StateAfter, Alive, SetsLength;
  }

  lemma DetachPromised(chip: Chip, t: Target, u: Usb, req: Setup)
    requires chip.Valid() && chip.Holds(t.mem) && Inv(u) && req == Setup(0x21, 0, req.wValue, req.wIndex, 0)
    ensures Proper(req) && NamesEndpoint(req) && AtRequest(u, req).Sized()
    ensures Promised(chip, t, AtRequest(u, req), req) == Done
    ensures StateAfter(chip, t, u.dfu.state.Code(), req) == 7
  {
  }

  lemma ManifestByCode(d: Dev)
    ensures d.usb.dfu.state.Code() == 7 ==> !Alive(d)
  {
  }
}
