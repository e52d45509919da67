/** Staying in DFU mode: which traffic can not make the device reset, by the packets alone. */
module Staying {
  import opened Words
  import opened Flash
  import opened Commands
  import opened DfuRequests
  import opened Control
  import opened Device
  import opened Download

  predicate Asks(e: Event, request: Byte) {
    && e.SetupPacket? && Whole(e.bytes)
    && var req := Decode(e.bytes[..8]); req.ForDfu() && req.bRequest == request
  }

  /** The end of a download is announced by a DNLOAD without data. */
  predicate Announces(e: Event) {
    Asks(e, DFU_DNLOAD) && Decode(e.bytes[..8]).wLength == 0
  }

  /** It is withdrawn by an ABORT or an UPLOAD that is served at once. */
  predicate Withdraws(e: Event) {
    && (Asks(e, DFU_ABORT) || Asks(e, DFU_UPLOAD))
    && (Decode(e.bytes[..8]).wLength == 0 || Decode(e.bytes[..8]).DeviceToHost())
  }

  function Next(announced: bool, e: Event): bool {
    if Announces(e) then true else if Withdraws(e) then false else announced
  }

  /** Announced and not withdrawn, after some packets. */
  function Announced(before: bool, es: seq<Event>): bool {
    if es == [] then before else Next(Announced(before, es[..|es| - 1]), es[|es| - 1])
  }

  /** No DETACH, and no status query while the end of a download stands announced. */
  predicate Stays(before: bool, es: seq<Event>) {
    es == []
    || (&& Stays(before, es[..|es| - 1])
        && !Asks(es[|es| - 1], DFU_DETACH)
        && (Asks(es[|es| - 1], DFU_GETSTATUS) ==> !Announced(before, es[..|es| - 1])))
  }

  predicate Pending(u: Usb, request: Byte) {
    Receiving(u) && u.req.ForDfu() && u.req.bRequest == request
  }

  /** In DFU mode, with no end announced but by a packet, and no open transfer that would leave. */
  predicate Steady(u: Usb, announced: bool) {
    && u.dfu.state != Manifest && (u.dfu.state == ManifestSync ==> announced)
    && !Pending(u, DFU_DETACH) && (Pending(u, DFU_GETSTATUS) ==> !announced)
  }

  /** How a request can bring the device to its last two states. */
  predicate Moves(req: Setup, s: DfuState, r: DfuState) {
    && (r == Manifest ==>
          s == Manifest || (req.ForDfu() && req.bRequest == DFU_DETACH)
          || (req.ForDfu() && req.bRequest == DFU_GETSTATUS && s == ManifestSync))
    && (r == ManifestSync ==>
          && (s == ManifestSync || (req.ForDfu() && req.bRequest == DFU_DNLOAD && req.wLength == 0))
          && !(req.ForDfu() && req.bRequest in {DFU_ABORT, DFU_UPLOAD}))
  }

  lemma DispatchMoves(chip: Chip, t: Target, u: Usb)
    requires chip.Valid() && chip.Holds(t.mem) && u.Sized() && NamesEndpoint(u.req)
    ensures Moves(u.req, u.dfu.state, Dispatch(chip, t, u).1.dfu.state)
  {
    hide Overwrite, ReadRange, StatusReply, BlockAddress, Accepts, StandardRequest;
  }

  lemma ReadMoves(chip: Chip, t: Target, u: Usb)
    requires chip.Valid() && chip.Holds(t.mem) && u.Sized() && Covered(u.req)
    requires u.req.DeviceToHost() || u.req.wLength == 0
    ensures var v := SetupRead(chip, t, u); Moves(u.req, u.dfu.state, v.dfu.state) && !Receiving(v)
  {
    hide Dispatch, StartReply, Moves;
    var v := u.(dataoff := 0);
    DispatchMoves(chip, t, v);
    ReplyFits(chip, t, v);
    var (ok, w) := Dispatch(chip, t, v);
    if ok {
      StartReplyKeeps(w);
    }
    hide Covered;
  }

  lemma SetupSteady(chip: Chip, t: Target, u: Usb, p: seq<Byte>, announced: bool)
    requires chip.Valid() && chip.Holds(t.mem) && u.Sized() && Steady(u, announced)
    requires CoveredEvent(SetupPacket(p)) && !Asks(SetupPacket(p), DFU_DETACH)
    requires Asks(SetupPacket(p), DFU_GETSTATUS) ==> !announced
    ensures Steady(ControlSetup(chip, t, u, p), Next(announced, SetupPacket(p)))
  {
    hide SetupRead, Received, Decode;
    if Whole(p) {
      var v := NakSet(u.(tx := Nak, callback := false), true).(req := Received(u, p));
      if v.req.DeviceToHost() || v.req.wLength == 0 {
        ReadMoves(chip, t, v);
      }
    }
    hide Covered;
  }

  lemma OutSteady(chip: Chip, t: Target, u: Usb, p: seq<Byte>, announced: bool)
    requires chip.Valid() && chip.Holds(t.mem) && Inv(u) && Steady(u, announced)
    ensures Steady(ControlOut(chip, t, u, p), announced)
  {
    hide Dispatch, RecvChunk;
    if Receiving(u) {
      RecvChunkKeeps(u.(rx := Nak), p);
      var (ok, v) := RecvChunk(u.(rx := Nak), p);
      if ok && u.fsm == LastDataOut {
        DispatchMoves(chip, t, v);
      }
    }
    hide Covered;
  }

  lemma InSteady(u: Usb, announced: bool)
    requires Inv(u) && Steady(u, announced)
    ensures Steady(ControlIn(u), announced)
  {
    hide Covered, SendChunk;
    if u.fsm == DataIn {
      SendChunkKeeps(u.(tx := Nak));
    }
  }

  lemma StepSteady(chip: Chip, d: Dev, e: Event, announced: bool)
    requires Good(chip, d) && Steady(d.usb, announced) && CoveredEvent(e) && (d.usb.rx != Disabled || e == Reset)
    requires !Asks(e, DFU_DETACH) && (Asks(e, DFU_GETSTATUS) ==> !announced)
    ensures Steady(Step(chip, d, e).usb, Next(announced, e))
  {
    hide ControlSetup, ControlOut, ControlIn, Asks, Covered;
    if Completes(d.usb, e) {
      match e
      case Reset =>
      case SetupPacket(p) => SetupSteady(chip, d.tgt, d.usb, p, announced);
      case OutPacket(p) => OutSteady(chip, d.tgt, d.usb, p, announced);
      case InTaken => InSteady(d.usb, announced);
    }
    NotAsked(e);
  }

  lemma NotAsked(e: Event)
    ensures !e.SetupPacket? ==> forall request :: !Asks(e, request)
  {
  }

  /** Traffic without a DETACH, and without a status query after an announced end of the download, never makes
      the device leave DFU mode, whatever else it is; and it ends ready for the next transfer. */
  lemma {:induction false} RunStays(chip: Chip, d: Dev, es: seq<Event>, announced: bool)
    requires Good(chip, d) && Steady(d.usb, announced) && CoveredRun(es) && Stays(announced, es)
    requires d.usb.rx != Disabled || (es != [] && es[0] == Reset)
    ensures Steady(Run(chip, d, es).usb, Announced(announced, es)) && Ready(chip, Run(chip, d, es))
  {
    hide Step, Inv, Asks, Next, Announces, Withdraws;
    if es != [] {
      var init, e := es[..|es| - 1], es[|es| - 1];
      if init != [] || d.usb.rx != Disabled {
        RunStays(chip, d, init, announced);
      }
      StepSteady(chip, Run(chip, d, init), e, Announced(announced, init));
      RunKeepsReady(chip, d, es);
    }
  }
}
