/** The USB layer as it runs: its globals, the endpoint registers, the packet memory and the request
    handlers, each proved to do what the functions of Control and Device say. */
module UsbDevice {
  import opened Words
  import opened Flash
  import opened Commands
  import opened DfuRequests
  import opened Control
  import opened Device
  import opened DfuLayer
  import EndpointRegister
  import opened PacketMemory

  lemma UnpackPrefix(slots: seq<U16>, m: nat, n: nat)
    requires n <= m <= 2 * |slots|
    ensures Unpack(slots, m)[..n] == Unpack(slots, n)
  {
  }

  /** The status of endpoints 1 to 7. */
  function Others(view: seq<EndpointRegister.Fields>): (r: seq<Endpoint>)
    requires |view| == 8
    ensures |r| == 7
  {
    seq(7, n requires 0 <= n < 7 => Endpoint(view[n + 1].tx, view[n + 1].rx))
  }

  /** A register without endpoint status and data toggles: completion flags, type and address. */
  function Plain(f: EndpointRegister.Fields): EndpointRegister.Fields {
    f.(rx := Disabled, tx := Disabled, rxDtog := false, txDtog := false)
  }

  function Marks(view: seq<EndpointRegister.Fields>): (r: seq<EndpointRegister.Fields>)
    requires |view| == 8
    ensures |r| == 8
  {
    seq(8, n requires 0 <= n < 8 => Plain(view[n]))
  }

  /** The endpoint address that a request names. */
  function EndpointAddress(req: Setup): (addr: Byte)
    requires req.wIndex % 0x80 < 8
    ensures addr % 0x80 < 8
  {
    ModMod(req.wIndex);
    req.wIndex % 0x100
  }

  /** The data toggle of an endpoint direction is back at DATA0. */
  predicate ToggleClear(view: seq<EndpointRegister.Fields>, addr: Byte)
    requires |view| == 8 && addr % 0x80 < 8
  {
    if addr >= 0x80 then !view[addr % 0x80].txDtog else !view[addr].rxDtog
  }

  /** The received packet on endpoint 0 has been taken. */
  function Taken(marks: seq<EndpointRegister.Fields>): (r: seq<EndpointRegister.Fields>)
    requires |marks| == 8
    ensures |r| == 8
  {
    marks[0 := marks[0].(rxCtr := false)]
  }

  /** After a bus reset only the completion flags are left, and endpoint 0 is a control endpoint. */
  function ResetMarks(marks: seq<EndpointRegister.Fields>): (r: seq<EndpointRegister.Fields>)
    requires |marks| == 8
    ensures |r| == 8
  {
    seq(8, n requires 0 <= n < 8 =>
      EndpointRegister.Fields(marks[n].rxCtr, false, Disabled, false, false, if n == 0 then 0x0200 else 0,
                              marks[n].txCtr, false, Disabled, 0))
  }

  lemma MarksAfterReset(was: seq<EndpointRegister.Fields>, view: seq<EndpointRegister.Fields>)
    requires |was| == 8 && |view| == 8
    requires forall n :: 0 < n < 8 ==> view[n] == EndpointRegister.NextFields(was[n], EndpointRegister.BusResets)
    requires Plain(view[0])
             == Plain(EndpointRegister.NextFields(was[0], EndpointRegister.BusResets)).(epType := 0x0200)
    ensures Marks(view) == ResetMarks(Marks(was))
  {
  }

  /** The completion flags, types and addresses after an event and its poll: a served packet is acknowledged, and
      only that; a packet that comes outside its stage is not, and stays flagged until the next setup packet. */
  function Acknowledged(marks: seq<EndpointRegister.Fields>, u: Usb, e: Event): (r: seq<EndpointRegister.Fields>)
    requires |marks| == 8
  {
    if u.dfu.state == Manifest || !Completes(u, e) then marks
    else
      match e
      case Reset => ResetMarks(marks)
      case SetupPacket(_) => marks[0 := marks[0].(rxCtr := false, setup := true)]
      case OutPacket(_) => marks[0 := marks[0].(rxCtr := !(Receiving(u) || u.fsm == StatusOut), setup := false)]
      case InTaken => marks[0 := marks[0].(txCtr := false)]
  }

  lemma OthersFrame(view: seq<EndpointRegister.Fields>, f: EndpointRegister.Fields)
    requires |view| == 8
    ensures Others(view[0 := f]) == Others(view)
    ensures Marks(view[0 := f]) == Marks(view)[0 := Plain(f)] && Marks(view)[0] == Plain(view[0])
    ensures Plain(f) == Plain(view[0]) ==> Marks(view[0 := f]) == Marks(view)
  {
  }

  lemma MarksAt(view: seq<EndpointRegister.Fields>)
    requires |view| == 8
    ensures Marks(view)[0] == Plain(view[0])
  {
  }

  lemma OthersUpdate(view: seq<EndpointRegister.Fields>, n: nat, f: EndpointRegister.Fields)
    requires |view| == 8 && 0 < n < 8
    ensures Others(view[n := f]) == Others(view)[n - 1 := Endpoint(f.tx, f.rx)]
    ensures Others(view)[n - 1] == Endpoint(view[n].tx, view[n].rx)
    ensures Plain(f) == Plain(view[n]) ==> Marks(view[n := f]) == Marks(view)
  {
  }

  class UsbStack {
    const dfu: DfuApp
    const eps: EndpointRegister.EndpointFile
    const txArea: array<U16>
    const rxArea: array<U16>
    const setupBytes: array<Byte>
    var fsm: Fsm
    var datasize: U16
    var dataoff: U16
    var needsZlp: bool
    var callback: bool
    var forceNak: bool
    var txCount: nat
    var rxCount: nat
    var daddr: Byte

    ghost predicate Wired() {
      && dfu.Wired()
      && txArea.Length == 32 && rxArea.Length == 512 && setupBytes.Length == 8
      && txArea != rxArea
      && setupBytes != dfu.controlBuffer && setupBytes != dfu.shadow && setupBytes != dfu.flash.cells
      && (txArea as object) !in {setupBytes as object, dfu.controlBuffer, dfu.shadow, dfu.flash.cells, eps.regs}
      && (rxArea as object) !in {setupBytes as object, dfu.controlBuffer, dfu.shadow, dfu.flash.cells, eps.regs}
      && (eps.regs as object) !in {setupBytes as object, dfu.controlBuffer, dfu.shadow, dfu.flash.cells}
    }

    ghost predicate Valid()
      reads this, eps, eps.regs, dfu, dfu.flash
    {
      Wired() && eps.Valid() && dfu.Valid() && txCount <= 64 && rxCount <= 1024 && dataoff % 2 == 0
    }

    ghost function Abs(): (u: Usb)
      requires Wired()
      reads this, eps, eps.regs, txArea, setupBytes, dfu, dfu.controlBuffer, dfu.shadow
      requires eps.Valid() && txCount <= 64
    {
      Usb(fsm, datasize, dataoff, needsZlp, Decode(setupBytes[..]), callback, forceNak,
          eps.view[0].tx, eps.view[0].rx,
          Others(eps.view),
          Unpack(txArea[..], txCount), daddr, dfu.controlBuffer[..], dfu.LayerState())
    }

    /** The packet the hardware received last. */
    ghost function Packet(): (p: seq<Byte>)
      requires Wired() && rxCount <= 1024
      reads this, rxArea
      ensures |p| == rxCount
    {
      Unpack(rxArea[..], rxCount)
    }

    constructor (dfu: DfuApp)
      requires dfu.Valid()
      ensures Valid() && this.dfu == dfu && fresh(eps) && fresh(eps.regs)
      ensures fresh(txArea) && fresh(rxArea) && fresh(setupBytes)
      ensures Abs() == Usb(Idle, 0, 0, false, Setup(0, 0, 0, 0, 0), false, false, Disabled, Disabled,
                           seq(7, _ => Endpoint(Disabled, Disabled)), [], 0,
                           dfu.controlBuffer[..], dfu.LayerState())
    {
      this.dfu := dfu;
      eps := new EndpointRegister.EndpointFile();
      txArea := new U16[32](_ => 0);
      rxArea := new U16[512](_ => 0);
      setupBytes := new Byte[8](_ => 0);
      fsm, datasize, dataoff, needsZlp, callback, forceNak := Idle, 0, 0, false, false, false;
      txCount, rxCount, daddr := 0, 0, 0;
      new;
      hide EndpointRegister.Decode, Marks;
      assert Others(eps.view) == seq(7, _ => Endpoint(Disabled, Disabled));
      assert Decode(setupBytes[..]) == Setup(0, 0, 0, 0, 0);
    }

    // ---- Endpoint primitives -----------------------------------------------------------------

    method SetTx(stat: Stat)
      requires Valid()
      modifies eps, eps.regs
      ensures Valid() && Abs() == old(Abs()).(tx := stat)
      ensures eps.view == old(eps.view)[0 := old(eps.view)[0].(tx := stat)]
      ensures Marks(eps.view) == old(Marks(eps.view))
    {
      hide EndpointRegister.Decode, Marks, DfuRequests.Decode, Unpack, Others;
      OthersFrame(eps.view, eps.view[0].(tx := stat));
      eps.Do(0, EndpointRegister.SetTxStat(stat));
    }

    method SetRx(stat: Stat)
      requires Valid()
      modifies eps, eps.regs
      ensures Valid() && Abs() == old(Abs()).(rx := stat)
      ensures eps.view == old(eps.view)[0 := old(eps.view)[0].(rx := stat)]
      ensures Marks(eps.view) == old(Marks(eps.view))
    {
      hide EndpointRegister.Decode, Marks, DfuRequests.Decode, Unpack, Others;
      OthersFrame(eps.view, eps.view[0].(rx := stat));
      eps.Do(0, EndpointRegister.SetRxStat(stat));
    }

    method StallTransaction()
      requires Valid()
      modifies this`fsm, eps, eps.regs
      ensures Valid() && Abs() == Control.StallTransaction(old(Abs()))
      ensures Marks(eps.view) == old(Marks(eps.view))
    {
      hide EndpointRegister.Decode, Marks, DfuRequests.Decode, Unpack, Others;
      SetTx(Stall);
      SetRx(Stall);
      fsm := Idle;
    }

    /** `_usbd_ep_write_packet` on endpoint 0, from the control buffer. */
    method WritePacket(off: nat, len: nat)
      requires Valid() && len <= 64 && off + len + len % 2 <= TRANSFER_SIZE
      modifies this`txCount, eps, eps.regs, txArea
      ensures Valid() && Abs() == Control.WritePacket(old(Abs()), dfu.controlBuffer[off..off + len])
      ensures Marks(eps.view) == old(Marks(eps.view))
    {
      hide EndpointRegister.Decode, Marks, DfuRequests.Decode, Unpack, Overwrite, Others;
      var f := eps.Status(0);
      if f.tx == Stat.Valid {
        return;
      }
      CopyToPm(txArea, dfu.controlBuffer, off, len);
      txCount := len;
      SetTx(Stat.Valid);
    }

    /** One of the macros that leave endpoint status and data toggles alone, on endpoint 0. */
    method SetPlain(op: EndpointRegister.Op)
      requires Valid() && op.Legal() && (op.SetAddr? || op.SetType? || op.ClearRxCtr? || op.ClearTxCtr?)
      modifies eps, eps.regs
      ensures Valid() && Abs() == old(Abs())
      ensures eps.view == old(eps.view)[0 := EndpointRegister.NextFields(old(eps.view)[0], op)]
    {
      hide EndpointRegister.Decode, Marks, DfuRequests.Decode, Unpack, Others;
      OthersFrame(eps.view, EndpointRegister.NextFields(eps.view[0], op));
      eps.Do(0, op);
    }

    /** `_usbd_ep_read_packet` on endpoint 0: nothing while reception is armed; otherwise at most max bytes go
        to `to`, the packet is acknowledged, and reception is re-armed unless NAK is forced. */
    method ReadPacket(to: array<Byte>, off: nat, max: nat) returns (n: nat)
      requires Valid() && off + max <= to.Length && (to == setupBytes || to == dfu.controlBuffer)
      modifies eps, eps.regs, to
      ensures Valid() && Packet() == old(Packet())
      ensures old(eps.view[0].rx) == Stat.Valid ==>
                n == 0 && to[..] == old(to[..]) && Abs() == old(Abs()) && eps.view == old(eps.view)
      ensures old(eps.view[0].rx) != Stat.Valid ==>
                && n == Min(rxCount % 0x400, max) && n <= rxCount
                && to[..] == Overwrite(old(to[..]), off, Packet()[..n])
                && Abs() == Rearm(old(Abs()).(req := Decode(setupBytes[..]), buffer := dfu.controlBuffer[..]))
                && !eps.view[0].rxCtr && Marks(eps.view) == Taken(old(Marks(eps.view)))
    {
      hide EndpointRegister.Decode, Marks, DfuRequests.Decode, Unpack, Overwrite, Others;
      var f := eps.Status(0);
      if f.rx == Stat.Valid {
        return 0;
      }
      n := TakePacket(to, off, max);
      AcknowledgePacket();
    }

    /** The bytes of the packet. */
    method TakePacket(to: array<Byte>, off: nat, max: nat) returns (n: nat)
      requires Valid() && off + max <= to.Length && (to == setupBytes || to == dfu.controlBuffer)
      modifies to
      ensures Valid() && Packet() == old(Packet()) && n == Min(rxCount % 0x400, max) && n <= rxCount
      ensures to[..] == Overwrite(old(to[..]), off, Packet()[..n])
      ensures Abs() == old(Abs()).(req := Decode(setupBytes[..]), buffer := dfu.controlBuffer[..])
    {
      hide EndpointRegister.Decode, Marks, DfuRequests.Decode, Unpack, Overwrite, Others;
      n := Min(rxCount % 0x400, max);
      UnpackPrefix(rxArea[..], rxCount, n);
      CopyFromPm(to, off, rxArea, n);
    }

    /** The end of reading: flag cleared, reception re-armed unless NAK is forced. */
    method AcknowledgePacket()
      requires Valid()
      modifies eps, eps.regs
      ensures Valid() && Abs() == Rearm(old(Abs()))
      ensures !eps.view[0].rxCtr && Marks(eps.view) == Taken(old(Marks(eps.view)))
    {
      hide EndpointRegister.Decode, Marks, DfuRequests.Decode, Unpack, Overwrite, Others;
      MarksAt(eps.view);
      OthersFrame(eps.view, eps.view[0].(rxCtr := false));
      SetPlain(EndpointRegister.ClearRxCtr);
      if !forceNak {
        SetRx(Stat.Valid);
      }
    }

    /** `_usbd_ep_nak_set` on endpoint 0. */
    method NakSet(nak: bool)
      requires Valid()
      modifies this`forceNak, eps, eps.regs
      ensures Valid() && Abs() == Control.NakSet(old(Abs()), nak)
      ensures Marks(eps.view) == old(Marks(eps.view))
    {
      hide EndpointRegister.Decode, Marks, DfuRequests.Decode, Unpack, Overwrite, Others;
      forceNak := nak;
      SetRx(if nak then Nak else Stat.Valid);
    }

    method SetTxOf(n: nat, stat: Stat)
      requires Valid() && n < 8
      modifies eps, eps.regs
      ensures Valid()
      ensures var u := old(Abs());
              Abs() == if n == 0 then u.(tx := stat)
                       else u.(others := u.others[n - 1 := u.others[n - 1].(tx := stat)])
      ensures eps.view == old(eps.view)[n := old(eps.view)[n].(tx := stat)]
      ensures Marks(eps.view) == old(Marks(eps.view))
    {
      hide EndpointRegister.Decode, Marks, DfuRequests.Decode, Unpack, Others;
      if n == 0 {
        SetTx(stat);
      } else {
        OthersUpdate(eps.view, n, eps.view[n].(tx := stat));
        eps.Do(n, EndpointRegister.SetTxStat(stat));
      }
    }

    method SetRxOf(n: nat, stat: Stat)
      requires Valid() && n < 8
      modifies eps, eps.regs
      ensures Valid()
      ensures var u := old(Abs());
              Abs() == if n == 0 then u.(rx := stat)
                       else u.(others := u.others[n - 1 := u.others[n - 1].(rx := stat)])
      ensures eps.view == old(eps.view)[n := old(eps.view)[n].(rx := stat)]
      ensures Marks(eps.view) == old(Marks(eps.view))
    {
      hide EndpointRegister.Decode, Marks, DfuRequests.Decode, Unpack, Others;
      if n == 0 {
        SetRx(stat);
      } else {
        OthersUpdate(eps.view, n, eps.view[n].(rx := stat));
        eps.Do(n, EndpointRegister.SetRxStat(stat));
      }
    }

    /** Data toggles are not part of the abstract state. */
    method ClearDtog(n: nat, op: EndpointRegister.Op)
      requires Valid() && n < 8 && (op.ClearTxDtog? || op.ClearRxDtog?)
      modifies eps, eps.regs
      ensures eps.view == old(eps.view)[n := EndpointRegister.NextFields(old(eps.view)[n], op)]
      ensures Valid() && Abs() == old(Abs())
      ensures Marks(eps.view) == old(Marks(eps.view))
    {
      hide EndpointRegister.Decode, Marks, DfuRequests.Decode, Unpack, Others;
      ghost var f := EndpointRegister.NextFields(eps.view[n], op);
      if n == 0 {
        OthersFrame(eps.view, f);
      } else {
        OthersUpdate(eps.view, n, f);
      }
      eps.Do(n, op);
    }

    /** `_ep_stall_set` */
    method StallSet(addr: Byte, stall: bool)
      requires Valid() && addr % 0x80 < 8
      modifies eps, eps.regs
      ensures Valid() && Abs() == Control.StallSet(old(Abs()), addr, stall)
      ensures Marks(eps.view) == old(Marks(eps.view))
      ensures !stall ==> ToggleClear(eps.view, addr)
    {
      hide EndpointRegister.Decode, Marks, DfuRequests.Decode, Unpack, Overwrite, Others;
      var txStat := if stall then Stall else Nak;
      var rxStat := if stall then Stall else Stat.Valid;
      if addr == 0 {
        SetTx(txStat);
      }
      if addr >= 0x80 {
        var n := addr % 0x80;
        SetTxOf(n, txStat);
        if !stall {
          ClearDtog(n, EndpointRegister.ClearTxDtog);
        }
      } else {
        if !stall {
          ClearDtog(addr, EndpointRegister.ClearRxDtog);
        }
        SetRxOf(addr, rxStat);
      }
    }

    // ---- Data stages -------------------------------------------------------------------------

    /** A full packet of a longer reply. */
    method SendFull()
      requires Valid() && PACKET < datasize && dataoff + datasize <= TRANSFER_SIZE
      modifies this`fsm, this`datasize, this`dataoff, this`txCount, eps, eps.regs, txArea
      ensures Valid() && Abs() == Control.SendChunk(old(Abs()))
      ensures Marks(eps.view) == old(Marks(eps.view))
    {
      hide EndpointRegister.Decode, Marks, DfuRequests.Decode, Unpack, Overwrite, Others;
      hide Control.WritePacket;
      WritePacket(dataoff, PACKET);
      fsm, dataoff, datasize := DataIn, dataoff + PACKET, datasize - PACKET;
    }

    /** The rest of a reply, or the empty packet owed after it. */
    method SendLast()
      requires Valid() && datasize <= PACKET && dataoff + datasize <= TRANSFER_SIZE
      modifies this`fsm, this`datasize, this`needsZlp, this`txCount, eps, eps.regs, txArea
      ensures Valid() && Abs() == Control.SendChunk(old(Abs()))
      ensures Marks(eps.view) == old(Marks(eps.view))
    {
      hide EndpointRegister.Decode, Marks, DfuRequests.Decode, Unpack, Overwrite, Others;
      hide Control.WritePacket;
      WritePacket(dataoff, datasize);
      fsm := if needsZlp then DataIn else LastDataIn;
      needsZlp, datasize := false, 0;
    }

    /** `usb_control_send_chunk` */
    method SendChunk()
      requires Valid() && dataoff + datasize <= TRANSFER_SIZE
      modifies this`fsm, this`datasize, this`dataoff, this`needsZlp, this`txCount, eps, eps.regs, txArea
      ensures Valid() && Abs() == Control.SendChunk(old(Abs()))
      ensures Marks(eps.view) == old(Marks(eps.view))
    {
      hide EndpointRegister.Decode, Marks, DfuRequests.Decode, Unpack, Overwrite, Others, Control.SendChunk;
      if PACKET < datasize {
        SendFull();
      } else {
        SendLast();
      }
    }

    /** `usb_control_recv_chunk`; the flag tells success. */
    method RecvChunk() returns (ok: bool)
      requires Valid() && datasize < Abs().req.wLength <= TRANSFER_SIZE && eps.view[0].rx != Stat.Valid
      modifies this`fsm, this`datasize, eps, eps.regs, dfu.controlBuffer
      ensures Valid() && (ok, Abs()) == Control.RecvChunk(old(Abs()), old(Packet()))
      ensures Marks(eps.view) == Taken(old(Marks(eps.view)))
    {
      hide EndpointRegister.Decode, Marks, DfuRequests.Decode, Unpack, Overwrite, Others;
      var req := Decode(setupBytes[..]);
      var size := Min(PACKET, req.wLength - datasize);
      var n := ReadPacket(dfu.controlBuffer, datasize, size);
      if n != size {
        StallTransaction();
        return false;
      }
      datasize := datasize + n;
      return true;
    }

    // ---- Requests ----------------------------------------------------------------------------

    /** Put a short reply in the control buffer and set its length. */
    method Answer(data: seq<Byte>)
      requires Valid() && |data| <= TRANSFER_SIZE
      modifies this`datasize, dfu.controlBuffer
      ensures Valid() && (true, Abs()) == Control.Answer(old(Abs()), data)
    {
      hide EndpointRegister.Decode, Marks, DfuRequests.Decode, Unpack, Overwrite, Others;
      dfu.PutReply(data);
      datasize := |data|;
    }

    /** The string descriptor case. */
    method AnswerString(s: seq<Byte>)
      requires Valid() && |s| <= 126
      modifies this`datasize, dfu.controlBuffer
      ensures Valid() && (true, Abs()) == Control.Answer(old(Abs()), [2 * |s| + 2, 3] + Widen(s))
    {
      hide EndpointRegister.Decode, Marks, DfuRequests.Decode, Unpack, Overwrite, Others, Widen;
      PutString(dfu.controlBuffer, s);
      datasize := 2 * |s| + 2;
    }

    /** `usb_standard_get_descriptor` */
    method GetDescriptor() returns (handled: bool)
      requires Valid()
      modifies this`datasize, dfu.controlBuffer
      ensures Valid() && (handled, Abs()) == Control.GetDescriptor(dfu.flash.chip, old(Abs()))
    {
      hide EndpointRegister.Decode, Marks, DfuRequests.Decode, Unpack, Overwrite, Others, Widen, ConfigDescriptor;
      var req := Decode(setupBytes[..]);
      var index, kind := req.wValue % 0x100, req.wValue / 0x100;
      handled := true;
      if kind == 1 {
        Answer(DEVICE_DESCRIPTOR);
      } else if kind == 2 {
        Answer(ConfigDescriptor(dfu.flash.chip));
      } else if kind == 3 {
        if index == 0 {
          Answer([4, 3] + Bytes16(LANGID_ENGLISH));
        } else if index > 5 || req.wIndex != LANGID_ENGLISH {
          ghost var was := dfu.controlBuffer[..];
          dfu.controlBuffer[1] := 3;
          Pieces(was, dfu.controlBuffer[..], 1, [3]);
          handled := false;
        } else {
          AnswerString(dfu.flash.chip.strings[index - 1]);
        }
      } else {
        handled := false;
      }
    }

    method DeviceRequest() returns (handled: bool)
      requires Valid()
      modifies this`datasize, dfu.controlBuffer, eps, eps.regs
      ensures Valid() && (handled, Abs()) == Control.DeviceRequest(dfu.flash.chip, old(Abs()))
      ensures Marks(eps.view) == old(Marks(eps.view))
    {
      hide EndpointRegister.Decode, Marks, DfuRequests.Decode, Unpack, Overwrite, Others;
      hide Control.GetDescriptor, Control.Answer;
      var req := Decode(setupBytes[..]);
      handled := true;
      if req.bRequest == SET_ADDRESS {
        handled := req.bmRequestType == 0 && req.wValue < 128;
      } else if req.bRequest == SET_CONFIGURATION {
        if req.wValue == 1 {
          DisableOthers();
        } else {
          handled := false;
        }
      } else if req.bRequest == GET_CONFIGURATION {
        Answer([1]);
      } else if req.bRequest == GET_DESCRIPTOR {
        handled := GetDescriptor();
      } else if req.bRequest == GET_STATUS {
        Answer([0, 0]);
      } else {
        handled := false;
      }
    }

    /** The loop of SET_CONFIGURATION. */
    method DisableOthers()
      requires Valid()
      modifies eps, eps.regs
      ensures Valid() && Abs() == old(Abs()).(others := seq(7, _ => Endpoint(Disabled, Disabled)))
      ensures Marks(eps.view) == old(Marks(eps.view))
    {
      hide EndpointRegister.Decode, Marks, DfuRequests.Decode, Unpack, Overwrite;
      ghost var was := eps.view;
      for n := 1 to 8
        invariant Valid() && eps.view[0] == was[0] && Marks(eps.view) == Marks(was)
        invariant forall k :: 1 <= k < n ==> eps.view[k].tx == Disabled && eps.view[k].rx == Disabled
      {
        OthersUpdate(eps.view, n, eps.view[n].(tx := Disabled));
        eps.Do(n, EndpointRegister.SetTxStat(Disabled));
        OthersUpdate(eps.view, n, eps.view[n].(rx := Disabled));
        eps.Do(n, EndpointRegister.SetRxStat(Disabled));
      }
      assert Others(eps.view) == seq(7, _ => Endpoint(Disabled, Disabled));
    }

    method InterfaceRequest() returns (handled: bool)
      requires Valid()
      modifies this`datasize, dfu.controlBuffer
      ensures Valid() && (handled, Abs()) == Control.InterfaceRequest(old(Abs()))
    {
      hide EndpointRegister.Decode, Marks, DfuRequests.Decode, Unpack, Overwrite, Others;
      hide Control.Answer;
      var req := Decode(setupBytes[..]);
      handled := true;
      if req.bRequest == GET_INTERFACE {
        Answer([1]);
      } else if req.bRequest == SET_INTERFACE {
        datasize := 0;
      } else if req.bRequest == GET_STATUS {
        Answer([0, 0]);
        handled := false;
      } else {
        handled := false;
      }
    }

    /** `_ep_stall_get` */
    method IsStalled(addr: Byte) returns (stalled: bool)
      requires Valid() && addr % 0x80 < 8
      ensures stalled == Control.IsStalled(Abs(), addr)
    {
      hide EndpointRegister.Decode, Marks, DfuRequests.Decode, Unpack;
      var f := eps.Status(addr % 0x80);
      stalled := if addr >= 0x80 then f.tx == Stall else f.rx == Stall;
    }

    method EndpointRequest() returns (handled: bool)
      requires Valid() && Abs().req.wIndex % 0x80 < 8
      modifies this`datasize, dfu.controlBuffer, eps, eps.regs
      ensures Valid() && (handled, Abs()) == Control.EndpointRequest(old(Abs()))
      ensures Marks(eps.view) == old(Marks(eps.view))
      ensures var req := old(Abs()).req;
              req.bRequest == CLEAR_FEATURE && req.wValue == 0 ==> ToggleClear(eps.view, EndpointAddress(req))
    {
      hide EndpointRegister.Decode, Marks, DfuRequests.Decode, Unpack, Overwrite, Others, ToggleClear;
      hide Control.Answer, Control.StallSet, Control.IsStalled;
      var req := Decode(setupBytes[..]);
      var addr := EndpointAddress(req);
      handled := true;
      if req.bRequest == CLEAR_FEATURE || req.bRequest == SET_FEATURE {
        if req.wValue == 0 {
          StallSet(addr, req.bRequest == SET_FEATURE);
        } else {
          handled := false;
        }
      } else if req.bRequest == GET_STATUS {
        var stalled := IsStalled(addr);
        Answer([if stalled then 1 else 0, 0]);
      } else {
        handled := false;
      }
    }

    /** `_usbd_standard_request` */
    method StandardRequest() returns (handled: bool)
      requires Valid() && Covered(Abs().req)
      modifies this`datasize, dfu.controlBuffer, eps, eps.regs
      ensures Valid() && (handled, Abs()) == Control.StandardRequest(dfu.flash.chip, old(Abs()))
      ensures Marks(eps.view) == old(Marks(eps.view))
    {
      hide EndpointRegister.Decode, Marks, DfuRequests.Decode, Unpack, Overwrite, Others;
      hide Control.DeviceRequest, Control.InterfaceRequest, Control.EndpointRequest;
      var req := Decode(setupBytes[..]);
      var kind := req.bmRequestType % 0x80;
      if kind == 0 {
        handled := DeviceRequest();
      } else if kind == 1 {
        handled := InterfaceRequest();
      } else if kind == 2 {
        handled := EndpointRequest();
      } else {
        handled := false;
      }
    }

    /** `usb_control_request_dispatch` */
    method Dispatch() returns (handled: bool)
      requires Valid() && Covered(Abs().req)
      modifies this`datasize, this`callback, dfu.controlBuffer, eps, eps.regs
      modifies dfu`state, dfu`len, dfu`blocknum, dfu.shadow
      ensures Valid() && dfu.TargetState() == old(dfu.TargetState())
      ensures (handled, Abs()) == Control.Dispatch(dfu.flash.chip, old(dfu.TargetState()), old(Abs()))
      ensures Marks(eps.view) == old(Marks(eps.view))
    {
      hide EndpointRegister.Decode, Marks, DfuRequests.Decode, Unpack, Overwrite, Others;
      hide Control.StandardRequest, DfuRequest, Covered, SetsLength;
      var req := Decode(setupBytes[..]);
      if req.ForDfu() {
        datasize := req.wLength;
        var code, len, cb := dfu.ControlRequest(req);
        datasize := len;
        callback := callback || cb;
        if code != NextCallback {
          return code == Handled;
        }
      }
      handled := StandardRequest();
    }

    // ---- Setup, OUT and IN transactions ------------------------------------------------------

    /** The empty packet that confirms a request without data to send. */
    method SendStatus()
      requires Valid()
      modifies this`fsm, this`txCount, eps, eps.regs, txArea
      ensures Valid() && Abs() == Control.WritePacket(old(Abs()), []).(fsm := StatusIn)
      ensures Marks(eps.view) == old(Marks(eps.view))
    {
      hide EndpointRegister.Decode, Marks, DfuRequests.Decode, Unpack, Overwrite, Others, Control.WritePacket;
      WritePacket(0, 0);
      assert dfu.controlBuffer[0..0] == [];
      fsm := StatusIn;
    }

    /** The first packet of a reply of n bytes. */
    method SendReply(n: U16)
      requires Valid() && dataoff == 0 && n <= TRANSFER_SIZE && n <= Abs().req.wLength
      modifies this`fsm, this`datasize, this`dataoff, this`needsZlp, this`txCount, eps, eps.regs, txArea
      ensures Valid()
      ensures var u := old(Abs());
              Abs() == Control.SendChunk(u.(datasize := n, needsZlp := NeedsZlp(n, u.req.wLength)))
      ensures Marks(eps.view) == old(Marks(eps.view))
    {
      hide EndpointRegister.Decode, Marks, DfuRequests.Decode, Unpack, Overwrite, Others, Control.SendChunk, NeedsZlp;
      var req := Decode(setupBytes[..]);
      datasize := n;
      needsZlp := NeedsZlp(datasize, req.wLength);
      SendChunk();
    }

    /** The tail of `_usb_control_setup_read` once the request is handled. */
    method StartReply()
      requires Valid() && dataoff == 0 && Min(datasize, Abs().req.wLength) <= TRANSFER_SIZE
      modifies this`fsm, this`datasize, this`dataoff, this`needsZlp, this`txCount, eps, eps.regs, txArea
      ensures Valid() && Abs() == Control.StartReply(old(Abs()))
      ensures Marks(eps.view) == old(Marks(eps.view))
    {
      hide EndpointRegister.Decode, Marks, DfuRequests.Decode, Unpack, Overwrite, Others;
      hide Control.SendChunk, Control.WritePacket, NeedsZlp;
      var req := Decode(setupBytes[..]);
      if datasize > req.wLength {
        datasize := req.wLength;
      }
      if req.wLength != 0 {
        SendReply(datasize);
      } else {
        SendStatus();
      }
    }

    /** `_usb_control_setup_read` */
    method SetupRead()
      requires Valid() && Covered(Abs().req) && (Abs().req.DeviceToHost() || Abs().req.wLength == 0)
      modifies this`fsm, this`datasize, this`dataoff, this`needsZlp, this`callback, this`txCount
      modifies eps, eps.regs, txArea, dfu.controlBuffer, dfu`state, dfu`len, dfu`blocknum, dfu.shadow
      ensures Valid() && dfu.TargetState() == old(dfu.TargetState())
      ensures Abs() == Control.SetupRead(dfu.flash.chip, old(dfu.TargetState()), old(Abs()))
      ensures Marks(eps.view) == old(Marks(eps.view))
    {
      hide EndpointRegister.Decode, Marks, DfuRequests.Decode, Unpack, Overwrite, Others;
      hide Control.Dispatch, Control.StartReply, Covered;
      dataoff := 0;
      ReplyFits(dfu.flash.chip, dfu.TargetState(), Abs());
      var handled := Dispatch();
      if handled {
        StartReply();
      } else {
        StallTransaction();
      }
    }

    /** `_usb_control_setup_write` */
    method SetupWrite()
      requires Valid()
      modifies this`fsm, this`datasize, this`forceNak, eps, eps.regs
      ensures Valid() && Abs() == Control.SetupWrite(old(Abs()))
      ensures Marks(eps.view) == old(Marks(eps.view))
    {
      hide EndpointRegister.Decode, Marks, DfuRequests.Decode, Unpack, Overwrite, Others;
      var req := Decode(setupBytes[..]);
      if req.wLength > TRANSFER_SIZE {
        StallTransaction();
        return;
      }
      datasize := 0;
      fsm := if req.wLength > PACKET then DataOut else LastDataOut;
      NakSet(false);
    }

    /** `_usbd_control_setup`, after the hardware has taken the packet. */
    method ControlSetup()
      requires Valid() && eps.view[0].tx == Nak && CoveredEvent(SetupPacket(Packet()))
      modifies this`fsm, this`datasize, this`dataoff, this`needsZlp, this`callback, this`forceNak, this`txCount
      modifies eps, eps.regs, txArea, setupBytes, dfu.controlBuffer, dfu`state, dfu`len, dfu`blocknum, dfu.shadow
      ensures Valid() && dfu.TargetState() == old(dfu.TargetState())
      ensures Abs() == Control.ControlSetup(dfu.flash.chip, old(dfu.TargetState()), old(Abs()), old(Packet()))
      ensures Marks(eps.view) == Taken(old(Marks(eps.view)))
    {
      hide EndpointRegister.Decode, Marks, DfuRequests.Decode, Encode, Unpack, Overwrite, Others;
      hide Control.SetupRead, Control.SetupWrite, Covered;
      EncodeDecode(setupBytes[..]);
      callback := false;
      NakSet(true);
      var n := ReadPacket(setupBytes, 0, 8);
      assert Abs().req == Received(old(Abs()), old(Packet()));
      if n != 8 {
        StallTransaction();
        return;
      }
      var req := Decode(setupBytes[..]);
      if req.wLength == 0 || req.DeviceToHost() {
        SetupRead();
      } else {
        SetupWrite();
      }
    }

    /** The registered callback, if any: only GETSTATUS registers one. */
    method Complete()
      requires Valid()
      modifies dfu`state, dfu`addr, dfu.flash, dfu.flash.cells
      ensures Valid() && Abs() == Completed(old(Abs()))
      ensures dfu.TargetState() == if old(callback && dfu.state == DnBusy)
                                   then Apply(dfu.flash.chip, old(dfu.TargetState()), old(Abs()).dfu.prog)
                                   else old(dfu.TargetState())
    {
      hide EndpointRegister.Decode, Marks, DfuRequests.Decode, Unpack, Overwrite, Others;
      hide Apply;
      if callback {
        dfu.GetStatusComplete();
      }
    }

    /** Dispatch a write whose data is complete, and go to the status stage. */
    method AnswerWrite()
      requires Valid() && Covered(Abs().req)
      modifies this`fsm, this`datasize, this`callback, this`txCount
      modifies eps, eps.regs, txArea, dfu.controlBuffer, dfu`state, dfu`len, dfu`blocknum, dfu.shadow
      ensures Valid() && dfu.TargetState() == old(dfu.TargetState())
      ensures var r := Control.Dispatch(dfu.flash.chip, old(dfu.TargetState()), old(Abs()));
              Abs() == Answered(r.0, r.1)
      ensures Marks(eps.view) == old(Marks(eps.view))
    {
      hide EndpointRegister.Decode, Marks, DfuRequests.Decode, Unpack, Overwrite, Others;
      hide Control.Dispatch, Control.WritePacket, Control.StallTransaction, Covered;
      var handled := Dispatch();
      if handled {
        SendStatus();
      } else {
        StallTransaction();
      }
    }

    /** The last packet of an OUT stage: receive it, then dispatch the request. */
    method FinishOut()
      requires Valid() && Inv(Abs()) && fsm == LastDataOut && eps.view[0].rx == Nak
      modifies this`fsm, this`datasize, this`callback, this`txCount
      modifies eps, eps.regs, txArea, dfu.controlBuffer, dfu`state, dfu`len, dfu`blocknum, dfu.shadow
      ensures Valid() && dfu.TargetState() == old(dfu.TargetState())
      ensures Abs() == Control.ControlOut(dfu.flash.chip, old(dfu.TargetState()), old(Abs()), old(Packet()))
      ensures Marks(eps.view) == Taken(old(Marks(eps.view)))
    {
      hide EndpointRegister.Decode, Marks, DfuRequests.Decode, Unpack, Overwrite, Others;
      hide Control.RecvChunk, Control.Dispatch, Answered, Covered;
      LastPacket(dfu.flash.chip, dfu.TargetState(), Abs(), Packet());
      hide Control.ControlOut, Inv;
      var ok := RecvChunk();
      if ok {
        AnswerWrite();
      }
    }

    /** A packet that is not the last of its OUT stage. */
    method ContinueOut()
      requires Valid() && Inv(Abs()) && fsm == DataOut && eps.view[0].rx == Nak
      modifies this`fsm, this`datasize, eps, eps.regs, dfu.controlBuffer
      ensures Valid()
      ensures Abs() == Control.ControlOut(dfu.flash.chip, dfu.TargetState(), old(Abs()), old(Packet()))
      ensures Marks(eps.view) == Taken(old(Marks(eps.view)))
    {
      hide EndpointRegister.Decode, Marks, DfuRequests.Decode, Unpack, Overwrite, Others;
      hide Control.RecvChunk, Control.Dispatch, Covered;
      RecvChunkKeeps(Abs(), Packet());
      assert Abs() == Abs().(rx := Nak);
      var ok := RecvChunk();
      var req := Decode(setupBytes[..]);
      if ok && req.wLength - datasize <= PACKET {
        fsm := LastDataOut;
      }
    }

    method EndRead()
      requires Valid() && eps.view[0].rx == Nak
      modifies this`fsm, eps, eps.regs, dfu.controlBuffer
      ensures Valid() && Abs() == Rearm(old(Abs())).(fsm := Idle) && dfu.TargetState() == old(dfu.TargetState())
      ensures Marks(eps.view) == Taken(old(Marks(eps.view)))
    {
      hide EndpointRegister.Decode, Marks, DfuRequests.Decode, Unpack, Overwrite, Others;
      DropPacket();
      fsm := Idle;
    }

    method CompleteOnce()
      requires Valid()
      modifies this`callback, dfu`state, dfu`addr, dfu.flash, dfu.flash.cells
      ensures Valid() && Abs() == Completed(old(Abs())).(callback := false)
      ensures dfu.TargetState() == if old(callback && dfu.state == DnBusy)
                                   then Apply(dfu.flash.chip, old(dfu.TargetState()), old(Abs()).dfu.prog)
                                   else old(dfu.TargetState())
    {
      hide EndpointRegister.Decode, Marks, DfuRequests.Decode, Unpack, Overwrite, Others, Apply;
      Complete();
      callback := false;
    }

    /** The status packet of a read: back to idle, then the callback. */
    method FinishRead()
      requires Valid() && Inv(Abs()) && fsm == StatusOut && eps.view[0].rx == Nak
      modifies this`fsm, this`callback, eps, eps.regs, dfu.controlBuffer
      modifies dfu`state, dfu`addr, dfu.flash, dfu.flash.cells
      ensures Valid()
      ensures Abs() == Control.ControlOut(dfu.flash.chip, old(dfu.TargetState()), old(Abs()), old(Packet()))
      ensures dfu.TargetState() == if old(callback && dfu.state == DnBusy)
                                   then Apply(dfu.flash.chip, old(dfu.TargetState()), old(Abs()).dfu.prog)
                                   else old(dfu.TargetState())
      ensures Marks(eps.view) == Taken(old(Marks(eps.view)))
    {
      hide EndpointRegister.Decode, Marks, DfuRequests.Decode, Unpack, Overwrite, Others;
      hide Control.Dispatch, Control.RecvChunk, Control.WritePacket, Control.StallTransaction, Rearm;
      hide Apply, Covered;
      assert Abs() == Abs().(rx := Nak);
      assert Control.ControlOut(dfu.flash.chip, dfu.TargetState(), Abs(), Packet())
             == Completed(Rearm(Abs()).(fsm := Idle)).(callback := false);
      hide Control.ControlOut, Inv;
      EndRead();
      CompleteOnce();
    }

    /** A packet outside its stage: the transfer ends in a stall. */
    method RefuseOut()
      requires Valid() && Inv(Abs()) && !Receiving(Abs()) && fsm != StatusOut && eps.view[0].rx == Nak
      modifies this`fsm, eps, eps.regs
      ensures Valid() && Marks(eps.view) == old(Marks(eps.view))
      ensures Abs() == Control.ControlOut(dfu.flash.chip, dfu.TargetState(), old(Abs()), old(Packet()))
    {
      hide EndpointRegister.Decode, Marks, DfuRequests.Decode, Unpack, Overwrite, Others, Control.Dispatch;
      assert Abs() == Abs().(rx := Nak);
      assert Control.ControlOut(dfu.flash.chip, dfu.TargetState(), Abs(), Packet()) == Control.StallTransaction(Abs());
      hide Control.ControlOut, Inv, Control.StallTransaction;
      StallTransaction();
    }

    /** `_usbd_control_out`, after the hardware has taken the packet. */
    method ControlOut()
      requires Valid() && Inv(Abs()) && eps.view[0].rx == Nak
      modifies this`fsm, this`datasize, this`callback, this`txCount
      modifies eps, eps.regs, txArea, setupBytes, dfu.controlBuffer, dfu`state, dfu`len, dfu`blocknum, dfu.shadow
      modifies dfu`addr, dfu.flash, dfu.flash.cells
      ensures Valid()
      ensures Abs() == Control.ControlOut(dfu.flash.chip, old(dfu.TargetState()), old(Abs()), old(Packet()))
      ensures dfu.TargetState() == if old(fsm == StatusOut && callback && dfu.state == DnBusy)
                                   then Apply(dfu.flash.chip, old(dfu.TargetState()), old(Abs()).dfu.prog)
                                   else old(dfu.TargetState())
      ensures Marks(eps.view) == if old(Receiving(Abs()) || fsm == StatusOut) then Taken(old(Marks(eps.view)))
                                 else old(Marks(eps.view))
    {
      hide EndpointRegister.Decode, Marks, DfuRequests.Decode, Unpack, Overwrite, Others, Apply, Covered;
      match fsm {
        case DataOut =>
          hide Control.ControlOut, Inv;
          ContinueOut();
        case LastDataOut =>
          hide Control.ControlOut, Inv;
          FinishOut();
        case StatusOut =>
          hide Control.ControlOut, Inv;
          FinishRead();
        case _ =>
          hide Control.ControlOut, Inv;
          RefuseOut();
      }
    }

    /** Reading a packet of which nothing is wanted. */
    method DropPacket()
      requires Valid() && eps.view[0].rx != Stat.Valid
      modifies eps, eps.regs, dfu.controlBuffer
      ensures Valid() && Abs() == Rearm(old(Abs()))
      ensures Marks(eps.view) == Taken(old(Marks(eps.view)))
    {
      hide EndpointRegister.Decode, Marks, DfuRequests.Decode, Unpack, Others;
      var n := ReadPacket(dfu.controlBuffer, 0, 0);
      assert Packet()[..0] == [];
      assert dfu.controlBuffer[..] == old(dfu.controlBuffer[..]);
    }

    /** The status packet of a write or of a request without data: callback, then a pending address. */
    method FinishWrite()
      requires Valid() && Inv(Abs()) && fsm == StatusIn && eps.view[0].tx == Nak
      modifies this`fsm, this`daddr, dfu`state, dfu`addr, dfu.flash, dfu.flash.cells
      ensures Valid() && Abs() == Control.ControlIn(old(Abs()))
      ensures dfu.TargetState() == if old(callback && dfu.state == DnBusy)
                                   then Apply(dfu.flash.chip, old(dfu.TargetState()), old(Abs()).dfu.prog)
                                   else old(dfu.TargetState())
    {
      hide EndpointRegister.Decode, Marks, DfuRequests.Decode, Unpack, Overwrite, Others;
      hide Apply, Covered;
      assert Abs() == Abs().(tx := Nak);
      Complete();
      var req := Decode(setupBytes[..]);
      if req.bmRequestType == 0 && req.bRequest == SET_ADDRESS {
        daddr := req.wValue % 0x80 + ADDRESS_ENABLE;
      }
      fsm := Idle;
    }

    /** `_usbd_control_in`, after the hardware has sent the packet. */
    method ControlIn()
      requires Valid() && Inv(Abs()) && eps.view[0].tx == Nak
      modifies this`fsm, this`datasize, this`dataoff, this`needsZlp, this`forceNak, this`txCount, this`daddr
      modifies eps, eps.regs, txArea, dfu`state, dfu`addr, dfu.flash, dfu.flash.cells
      ensures Valid() && Abs() == Control.ControlIn(old(Abs()))
      ensures dfu.TargetState() == if old(fsm == StatusIn && callback && dfu.state == DnBusy)
                                   then Apply(dfu.flash.chip, old(dfu.TargetState()), old(Abs()).dfu.prog)
                                   else old(dfu.TargetState())
      ensures Marks(eps.view) == old(Marks(eps.view))
    {
      hide EndpointRegister.Decode, Marks, DfuRequests.Decode, Unpack, Overwrite, Others, Apply, Covered;
      hide Control.SendChunk;
      assert Abs() == Abs().(tx := Nak);
      match fsm {
        case DataIn =>
          SendChunk();
        case LastDataIn =>
          fsm := StatusOut;
          NakSet(false);
        case StatusIn =>
          hide Control.ControlIn, Inv;
          FinishWrite();
        case _ =>
          StallTransaction();
      }
    }

    // ---- The poll loop -----------------------------------------------------------------------

    /** Hardware: a packet lands in the receive area and reception is NAKed; after a setup packet
        transmission is too. */
    method Receive(p: seq<Byte>, isSetup: bool)
      requires Valid() && |p| <= 1024
      modifies this`rxCount, eps, eps.regs, rxArea
      ensures Valid() && Packet() == p
      ensures Abs() == if isSetup then old(Abs()).(rx := Nak, tx := Nak) else old(Abs()).(rx := Nak)
      ensures var was := old(Marks(eps.view));
              Marks(eps.view) == was[0 := was[0].(rxCtr := true, setup := isSetup)]
    {
      hide EndpointRegister.Decode, Marks, DfuRequests.Decode, Overwrite, Others;
      Deliver(rxArea, p);
      rxCount := |p|;
      OthersFrame(eps.view, EndpointRegister.NextFields(eps.view[0], EndpointRegister.PacketReceived(isSetup)));
      eps.Do(0, EndpointRegister.PacketReceived(isSetup));
    }

    /** Hardware: a bus reset clears the endpoint registers but for the completion flags. */
    method ResetRegisters()
      requires Valid()
      modifies eps, eps.regs
      ensures Valid()
      ensures Abs() == old(Abs()).(tx := Disabled, rx := Disabled, others := seq(7, _ => Endpoint(Disabled, Disabled)))
      ensures forall n :: 0 <= n < 8 ==>
                eps.view[n] == EndpointRegister.NextFields(old(eps.view)[n], EndpointRegister.BusResets)
    {
      hide EndpointRegister.Decode, Marks, DfuRequests.Decode, Unpack, Overwrite;
      eps.ResetAll();
      assert Others(eps.view) == seq(7, _ => Endpoint(Disabled, Disabled));
    }

    /** The bus-reset branch: the hardware clears the registers, then endpoint 0 is set up. */
    method BusReset()
      requires Valid()
      modifies this`daddr, eps, eps.regs
      ensures Valid() && Abs() == Control.BusReset(old(Abs()))
      ensures eps.view[0] == EndpointRegister.Fields(old(eps.view)[0].rxCtr, false, Stat.Valid, false, false, 0x0200,
                                                     old(eps.view)[0].txCtr, false, Nak, 0)
      ensures Marks(eps.view) == ResetMarks(old(Marks(eps.view)))
    {
      hide EndpointRegister.Decode, Marks, DfuRequests.Decode, Unpack, Overwrite, Others;
      ghost var was := eps.view;
      ResetRegisters();
      SetupEndpoint0();
      daddr := ADDRESS_ENABLE;
      MarksAfterReset(was, eps.view);
    }

    /** `_usbd_ep_setup(0, CONTROL, 64)` */
    method SetupEndpoint0()
      requires Valid()
      modifies eps, eps.regs
      ensures Valid() && Abs() == old(Abs()).(tx := Nak, rx := Stat.Valid)
      ensures eps.view == old(eps.view)[0 := old(eps.view)[0].(addr := 0, epType := 0x0200, tx := Nak, txDtog := false,
                                                               rx := Stat.Valid, rxDtog := false)]
    {
      hide EndpointRegister.Decode, Marks, DfuRequests.Decode, Unpack, Overwrite, Others;
      SetPlain(EndpointRegister.SetAddr(0));
      SetPlain(EndpointRegister.SetType(EndpointRegister.TYPE_CONTROL));
      StartTx();
      StartRx();
    }

    method StartTx()
      requires Valid()
      modifies eps, eps.regs
      ensures Valid() && Abs() == old(Abs()).(tx := Nak)
      ensures eps.view == old(eps.view)[0 := old(eps.view)[0].(tx := Nak, txDtog := false)]
    {
      hide EndpointRegister.Decode, Marks, DfuRequests.Decode, Unpack, Overwrite, Others;
      ClearDtog(0, EndpointRegister.ClearTxDtog);
      SetTx(Nak);
    }

    method StartRx()
      requires Valid()
      modifies eps, eps.regs
      ensures Valid() && Abs() == old(Abs()).(rx := Stat.Valid)
      ensures eps.view == old(eps.view)[0 := old(eps.view)[0].(rx := Stat.Valid, rxDtog := false)]
    {
      hide EndpointRegister.Decode, Marks, DfuRequests.Decode, Unpack, Overwrite, Others;
      ClearDtog(0, EndpointRegister.ClearRxDtog);
      SetRx(Stat.Valid);
    }

    /** Hardware: the armed packet has gone out; then the poll clears the flag. */
    method Sent()
      requires Valid()
      modifies eps, eps.regs
      ensures Valid() && Abs() == old(Abs()).(tx := Nak)
      ensures var was := old(Marks(eps.view)); Marks(eps.view) == was[0 := was[0].(txCtr := false)]
    {
      hide EndpointRegister.Decode, Marks, DfuRequests.Decode, Unpack, Overwrite, Others;
      OthersFrame(eps.view, EndpointRegister.NextFields(eps.view[0], EndpointRegister.PacketSent));
      eps.Do(0, EndpointRegister.PacketSent);
      OthersFrame(eps.view, eps.view[0].(txCtr := false));
      eps.Do(0, EndpointRegister.ClearTxCtr);
    }

    /** The hardware takes a setup packet and the poll serves it. */
    method ServeSetup(p: seq<Byte>)
      requires Valid() && Inv(Abs()) && CoveredEvent(SetupPacket(p)) && |p| <= 1024
      modifies this, eps, eps.regs, txArea, rxArea, setupBytes
      modifies dfu`state, dfu`len, dfu`blocknum, dfu.controlBuffer, dfu.shadow
      ensures Valid() && dfu.TargetState() == old(dfu.TargetState())
      ensures Abs() == Control.ControlSetup(dfu.flash.chip, old(dfu.TargetState()), old(Abs()), p)
      ensures var was := old(Marks(eps.view));
              Marks(eps.view) == was[0 := was[0].(rxCtr := false, setup := true)]
    {
      hide EndpointRegister.Decode, Marks, DfuRequests.Decode, Unpack, Overwrite, Others, Covered, Inv;
      SetupAfterNak(dfu.flash.chip, dfu.TargetState(), Abs(), p);
      hide Control.ControlSetup;
      Receive(p, true);
      ControlSetup();
    }

    /** The hardware takes a data or status packet and the poll serves it. */
    method ServeOut(p: seq<Byte>)
      requires Valid() && Inv(Abs()) && |p| <= 1024
      modifies this, eps, eps.regs, txArea, rxArea, setupBytes
      modifies dfu, dfu.controlBuffer, dfu.shadow, dfu.flash, dfu.flash.cells
      ensures Valid()
      ensures Abs() == Control.ControlOut(dfu.flash.chip, old(dfu.TargetState()), old(Abs()), p)
      ensures dfu.TargetState() == if old(fsm == StatusOut && callback && dfu.state == DnBusy)
                                   then Apply(dfu.flash.chip, old(dfu.TargetState()), old(Abs()).dfu.prog)
                                   else old(dfu.TargetState())
      ensures var was := old(Marks(eps.view));
              Marks(eps.view) == was[0 := was[0].(rxCtr := !old(Receiving(Abs()) || fsm == StatusOut), setup := false)]
    {
      hide EndpointRegister.Decode, Marks, DfuRequests.Decode, Unpack, Overwrite, Others, Apply, Covered;
      OutAfterNak(dfu.flash.chip, dfu.TargetState(), Abs(), p);
      hide Control.ControlOut, Inv;
      Receive(p, false);
      ControlOut();
    }

    /** The hardware has sent the armed packet and the poll serves that. */
    method ServeIn()
      requires Valid() && Inv(Abs())
      modifies this, eps, eps.regs, txArea, dfu`state, dfu`addr, dfu.flash, dfu.flash.cells
      ensures Valid() && Abs() == Control.ControlIn(old(Abs()))
      ensures dfu.TargetState() == if old(fsm == StatusIn && callback && dfu.state == DnBusy)
                                   then Apply(dfu.flash.chip, old(dfu.TargetState()), old(Abs()).dfu.prog)
                                   else old(dfu.TargetState())
      ensures var was := old(Marks(eps.view)); Marks(eps.view) == was[0 := was[0].(txCtr := false)]
    {
      hide EndpointRegister.Decode, Marks, DfuRequests.Decode, Unpack, Overwrite, Others, Apply, Covered;
      InAfterNak(Abs());
      hide Control.ControlIn, Inv;
      Sent();
      ControlIn();
    }

    /** Main loop and `do_usb_poll`: one bus event, if the hardware lets it complete, and the poll that
        serves it. A device in the manifest state has been reset and polls no more. */
    method Poll(e: Event)
      requires Valid() && Inv(Abs()) && CoveredEvent(e)
      requires Fits(e)
      modifies this, eps, eps.regs, txArea, rxArea, setupBytes, dfu, dfu.controlBuffer, dfu.shadow
      modifies dfu.flash, dfu.flash.cells
      ensures Valid() && Inv(Abs())
      ensures Dev(Abs(), dfu.TargetState())
              == Step(dfu.flash.chip, Dev(old(Abs()), old(dfu.TargetState())), e)
      ensures Marks(eps.view) == Acknowledged(old(Marks(eps.view)), old(Abs()), e)
    {
      hide EndpointRegister.Decode, Marks, DfuRequests.Decode, Unpack, Overwrite, Others, Apply, Covered;
      hide Control.ControlSetup, Control.ControlOut, Control.ControlIn, Control.BusReset;
      StepKeepsGood(dfu.flash.chip, Dev(Abs(), dfu.TargetState()), e);
      hide Inv;
      if dfu.state != Manifest {
        var ep := eps.Status(0);
        if e == Reset {
          BusReset();
        } else if e.SetupPacket? && ep.rx != Disabled {
          ServeSetup(e.bytes);
        } else if e.OutPacket? && ep.rx == Stat.Valid {
          ServeOut(e.data);
        } else if e.InTaken? && ep.tx == Stat.Valid {
          ServeIn();
        }
      }
    }

    /** The main loop over a list of bus events. */
    method PollAll(es: seq<Event>)
      requires Valid() && Inv(Abs()) && CoveredRun(es) && forall e :: e in es ==> Fits(e)
      modifies this, eps, eps.regs, txArea, rxArea, setupBytes, dfu, dfu.controlBuffer, dfu.shadow
      modifies dfu.flash, dfu.flash.cells
      ensures Valid() && Inv(Abs())
      ensures Dev(Abs(), dfu.TargetState()) == Run(dfu.flash.chip, Dev(old(Abs()), old(dfu.TargetState())), es)
    {
      hide EndpointRegister.Decode, Marks, DfuRequests.Decode, Unpack, Overwrite, Others, Inv, Step, Covered;
      ghost var chip, start := dfu.flash.chip, Dev(Abs(), dfu.TargetState());
      assert es[..0] == [];
      for n := 0 to |es|
        invariant Valid() && Inv(Abs()) && Dev(Abs(), dfu.TargetState()) == Run(chip, start, es[..n])
      {
        assert es[..n + 1][..n] == es[..n];
        Poll(es[n]);
      }
      assert es[..|es|] == es;
    }
  }

  /** What the receive area holds. */
  predicate Fits(e: Event) {
    match e
    case SetupPacket(p) => |p| <= 1024
    case OutPacket(p) => |p| <= 1024
    case _ => true
  }

  /** What serving the last packet of an OUT stage amounts to. */
  lemma LastPacket(chip: Flash.Chip, t: Target, u: Usb, p: seq<Byte>)
    requires chip.Valid() && chip.Holds(t.mem) && Inv(u) && u.fsm == LastDataOut && u.rx == Nak
    ensures u.datasize < u.req.wLength <= TRANSFER_SIZE
    ensures var (ok, v) := Control.RecvChunk(u, p);
            && Covered(v.req)
            && Control.ControlOut(chip, t, u, p)
               == if ok then var (handled, w) := Control.Dispatch(chip, t, v); Answered(handled, w) else v
  {
    hide Control.RecvChunk, Control.Dispatch, Answered, Covered;
    RecvChunkKeeps(u, p);
    assert u == u.(rx := Nak);
  }

  lemma SetupAfterNak(chip: Flash.Chip, t: Target, u: Usb, p: seq<Byte>)
    requires chip.Valid() && chip.Holds(t.mem) && u.Sized() && CoveredEvent(SetupPacket(p))
    ensures Control.ControlSetup(chip, t, u.(rx := Nak, tx := Nak), p) == Control.ControlSetup(chip, t, u, p)
  {
    hide Dispatch, SetupRead, SetupWrite, Covered, Encode, DfuRequests.Decode, Overwrite;
  }

  lemma OutAfterNak(chip: Flash.Chip, t: Target, u: Usb, p: seq<Byte>)
    requires chip.Valid() && chip.Holds(t.mem) && Inv(u)
    ensures Inv(u.(rx := Nak)) && Control.ControlOut(chip, t, u.(rx := Nak), p) == Control.ControlOut(chip, t, u, p)
  {
    hide Dispatch, RecvChunk, Covered;
  }

  lemma InAfterNak(u: Usb)
    requires Inv(u)
    ensures Inv(u.(tx := Nak)) && Control.ControlIn(u.(tx := Nak)) == Control.ControlIn(u)
  {
    hide SendChunk, Covered;
  }

  lemma EncodeDecode(raw: seq<Byte>)
    requires |raw| == 8
    ensures Encode(DfuRequests.Decode(raw)) == raw
  {
  }

  lemma {:induction false} WidenAt(s: seq<Byte>, i: nat)
    requires i < |s|
    ensures Widen(s)[2 * i] == s[i] && Widen(s)[2 * i + 1] == 0
  {
    if i < |s| - 1 {
      WidenAt(s[..|s| - 1], i);
    }
  }

  /** A string descriptor: header, then one UTF-16 unit a character. */
  method PutString(buffer: array<Byte>, s: seq<Byte>)
    requires |s| <= 126 && buffer.Length == TRANSFER_SIZE
    modifies buffer
    ensures buffer[..] == Overwrite(old(buffer[..]), 0, [2 * |s| + 2, 3] + Widen(s))
  {
    hide Overwrite, Widen;
    ghost var was := buffer[..];
    buffer[1] := 3;
    buffer[0] := 2 * |s| + 2;
    for i := 0 to |s|
      invariant buffer[0] == 2 * |s| + 2 && buffer[1] == 3
      invariant forall j :: 0 <= j < i ==> buffer[2 + 2 * j] == s[j] && buffer[3 + 2 * j] == 0
      invariant forall j :: 2 + 2 * i <= j < TRANSFER_SIZE ==> buffer[j] == was[j]
    {
      buffer[2 + 2 * i] := s[i];
      buffer[3 + 2 * i] := 0;
    }
    ghost var data: seq<Byte> := [2 * |s| + 2, 3] + Widen(s);
    forall j | 0 <= j < |data|
      ensures buffer[j] == data[j]
    {
      if j >= 2 {
        WidenAt(s, (j - 2) / 2);
        assert j == 2 + 2 * ((j - 2) / 2) + (j - 2) % 2;
      }
    }
    Pieces(was, buffer[..], 0, data);
  }
}
