/** Stage 2 as a whole: start-up, and a download served by the running driver. */
module Firmware {
  import opened Words
  import opened Flash
  import opened Commands
  import opened DfuRequests
  import opened Control
  import opened Device
  import opened Monitor
  import opened Download
  import opened Sessions
  import opened Staying
  import opened CommandRuns
  import opened FlashDriver
  import opened DfuLayer
  import opened UsbDevice

  /** `stage2_entry` up to the main loop: all of memory but the flash is cleared, and the device is the one
      that the laws of every run start from. */
  method Boot(chip: Chip, cells: array<Byte>) returns (usb: UsbStack)
    requires chip.Valid() && cells.Length == chip.Size()
    ensures fresh(usb) && fresh(usb.eps) && fresh(usb.eps.regs)
    ensures fresh(usb.txArea) && fresh(usb.rxArea) && fresh(usb.setupBytes)
    ensures fresh(usb.dfu) && fresh(usb.dfu.controlBuffer) && fresh(usb.dfu.shadow) && fresh(usb.dfu.flash)
    ensures usb.Valid() && usb.dfu.flash.chip == chip && usb.dfu.flash.cells == cells
    ensures Dev(usb.Abs(), usb.dfu.TargetState()) == PowerOn(chip, cells[..])
  {
    var flash := new FlashController(chip, cells);
    var buffer := new Byte[TRANSFER_SIZE](_ => 0);
    var app := new DfuApp(flash, buffer);
    usb := new UsbStack(app);
    assert buffer[..] == seq(TRANSFER_SIZE, _ => 0);
  }

  lemma OutPacketsFit(data: seq<Byte>)
    ensures forall e :: e in OutPackets(data) ==> Fits(e)
  {
  }

  predicate AllFit(es: seq<Event>) {
    forall e :: e in es ==> Fits(e)
  }

  predicate GapsFit(gs: seq<Gap>) {
    forall g :: g in gs ==> AllFit(g.during) && AllFit(g.after)
  }

  lemma WriteFits(iface: U16, b: Block, g: Gap)
    requires Sendable(b) && Harmless(g) && AllFit(g.during) && AllFit(g.after)
    ensures AllFit(Write(iface, b, g))
  {
    OutPacketsFit(b.data);
    hide Fits, OutPackets, Encode, Harmless;
    SetupFits(DnloadSetup(b.num, iface, |b.data|));
    SetupFits(StatusSetup(iface));
    EmptyFits();
  }

  lemma SetupFits(s: Setup)
    ensures Fits(SetupPacket(Encode(s)))
  {
  }

  lemma EmptyFits()
    ensures Fits(InTaken) && Fits(OutPacket([]))
  {
  }

  lemma {:induction false} WriteAllFits(iface: U16, bs: seq<Block>, gs: seq<Gap>)
    requires |gs| == |bs| && AllHarmless(gs) && GapsFit(gs) && AllSendable(bs)
    ensures AllFit(WriteAll(iface, bs, gs))
  {
    hide Fits, Write, Harmless;
    if bs != [] {
      var n := |bs| - 1;
      SendableParts(bs, gs);
      assert gs[n] in gs && forall g :: g in gs[..n] ==> g in gs;
      WriteAllFits(iface, bs[..n], gs[..n]);
      WriteFits(iface, bs[n], gs[n]);
    }
  }

  lemma SessionFits(iface: U16, a: U32, image: seq<Byte>, gs: seq<Gap>)
    requires Gaps(image, gs) && GapsFit(gs)
    ensures AllFit(Session(iface, a, image, gs))
  {
    hide Fits, Write, WriteAll, Chunks, ChunkCount, Harmless;
    assert gs[0] in gs && forall g :: g in gs[1..] ==> g in gs;
    WriteFits(iface, SetAddress(a), gs[0]);
    WriteAllFits(iface, Chunks(image, ChunkCount(image)), gs[1..]);
  }

  /** The driver from start-up on: a bus reset, any traffic that stays in DFU mode, and one session leave the
      image in the cells of the flash, save an odd last byte, every cell outside its pages as the session found
      it or the wipe left it, the bootloader as it was and the flash controller locked. */
  method ServeDownload(
      chip: Chip, cells: array<Byte>, es: seq<Event>, iface: U16, a: U32, image: seq<Byte>, gs: seq<Gap>)
    returns (usb: UsbStack)
    requires chip.Valid() && cells.Length == chip.Size()
    requires CoveredRun([Reset] + es) && AllFit(es) && Stays(false, [Reset] + es)
    requires Gaps(image, gs) && GapsFit(gs) && Aligned(chip, a) && InUserArea(chip, a, |image|)
    modifies cells
    ensures cells[a - FLASH_BASE..a - FLASH_BASE + |EvenPart(image)|] == EvenPart(image)
    ensures cells[..BOOT_SIZE] == old(cells[..BOOT_SIZE])
    ensures var found := Run(chip, PowerOn(chip, old(cells[..])), [Reset] + es).tgt;
            forall i :: 0 <= i < cells.Length && image != [] && OutsidePages(chip, a, |image|, i) ==>
              cells[i] == Prepared(chip, found)[i]
    ensures usb.dfu.flash.cells == cells && usb.dfu.flash.Closed()
  {
    hide Run, Session, PowerOn, Chip.PageOf, ChunkCount, Fits, Inv, Prepared, AllHarmless, GapsFit, OutsidePages, Stays;
    hide EvenPart;
    ghost var before := cells[..];
    EndToEnd(chip, before, es, iface, a, image, gs);
    CellsOutside(chip, before, es, iface, a, image, gs);
    SessionFits(iface, a, image, gs);
    ResetFits();
    usb := Boot(chip, cells);
    assert before[..BOOT_SIZE] == cells[..BOOT_SIZE];
    usb.PollAll([Reset] + es + Session(iface, a, image, gs));
  }

  lemma CellsOutside(
      chip: Chip, mem: seq<Byte>, es: seq<Event>, iface: U16, a: U32, image: seq<Byte>, gs: seq<Gap>)
    requires chip.Valid() && chip.Holds(mem) && CoveredRun([Reset] + es) && Stays(false, [Reset] + es)
    requires Gaps(image, gs) && InUserArea(chip, a, |image|)
    ensures CoveredRun([Reset] + es + Session(iface, a, image, gs))
    ensures var found := Run(chip, PowerOn(chip, mem), [Reset] + es).tgt;
            var r := Run(chip, PowerOn(chip, mem), [Reset] + es + Session(iface, a, image, gs)).tgt.mem;
            forall i :: 0 <= i < |mem| && image != [] && OutsidePages(chip, a, |image|, i) ==>
              |r| == |mem| == |found.mem| && r[i] == Prepared(chip, found)[i]
  {
    hide Run, Session, Chip.PageOf, ChunkCount, Inv, Prepared, AllHarmless, OutsidePages, Stays;
    var d, all := PowerOn(chip, mem), [Reset] + es;
    PowerOnReady(chip, mem, es);
    RunConcat(chip, d, all, Session(iface, a, image, gs));
    var found := Run(chip, d, all);
    forall i | 0 <= i < |mem| && image != [] && OutsidePages(chip, a, |image|, i)
      ensures Run(chip, found, Session(iface, a, image, gs)).tgt.mem[i] == Prepared(chip, found.tgt)[i]
    {
      RestUntouched(chip, found, iface, a, image, gs, i);
    }
  }

  lemma ResetFits()
    ensures Fits(Reset)
  {
  }
}
