/** The upload build: what was downloaded is what an upload sends back, packet by packet. */
module ReadBack {
  import opened Words
  import opened Flash
  import opened Commands
  import opened CommandRuns
  import opened DfuRequests
  import opened Control
  import opened Device
  import opened Stages
  import opened Download
  import opened Sessions
  import opened RequestLaws

  function UploadSetup(block: U16, iface: U16): Setup {
    Setup(0xA1, DFU_UPLOAD, block, iface, TRANSFER_SIZE)
  }

  lemma DispatchUpload(chip: Chip, t: Target, u: Usb)
    requires chip.Valid() && chip.Holds(t.mem) && u.Sized() && Covered(u.req) && chip.upload
    requires u.req.ForDfu() && u.req.bRequest == DFU_UPLOAD && u.req.wValue != 0
    requires InUserArea(chip, BlockAddress(t.addr, u.req.wValue), TRANSFER_SIZE)
    ensures var (ok, w) := Dispatch(chip, t, u);
            var at := BlockAddress(t.addr, u.req.wValue) - FLASH_BASE;
            && ok && w.datasize == TRANSFER_SIZE && w.dfu.state == UploadIdle && |w.buffer| == TRANSFER_SIZE
            && at + TRANSFER_SIZE <= |t.mem| && w.buffer == t.mem[at..at + TRANSFER_SIZE]
  {
    hide DfuRequest, BlockAddress, Covered, SetsLength, StandardRequest;
    UploadReturnsFlash(chip, t, u.dfu, u.req, u.buffer, u.req.wLength);
  }

  /** The device is in an IN stage whose packets, joined, are data. */
  predicate Sends(u: Usb, data: seq<Byte>) {
    Inv(u) && Armed(u) && Sending(u) && Join(Packets(u)) == data
  }

  lemma CutSends(u: Usb, data: seq<Byte>, wLength: nat)
    requires Inv(u) && Armed(u) && Sending(u) && |data| <= wLength
    requires Packets(u) == Cut(data, NeedsZlp(|data|, wLength))
    ensures Sends(u, data)
  {
    hide Inv, Armed, Packets, Cut, NeedsZlp, Join;
    CutDelivers(data, wLength);
  }

  /** Whatever a handler leaves in the control buffer for a read goes out whole, if the host asks for that
      much. */
  lemma ReadSends(chip: Chip, t: Target, u: Usb, p: seq<Byte>)
    requires chip.Valid() && chip.Holds(t.mem) && Inv(u) && Whole(p) && CoveredEvent(SetupPacket(p))
    requires Decode(p[..8]).DeviceToHost() && Decode(p[..8]).wLength != 0
    requires Dispatch(chip, t, AtDispatch(u, p)).0
    requires Dispatch(chip, t, AtDispatch(u, p)).1.datasize <= Decode(p[..8]).wLength
    ensures var w := Dispatch(chip, t, AtDispatch(u, p)).1;
            w.datasize <= |w.buffer| && Sends(ControlSetup(chip, t, u, p), w.buffer[..w.datasize])
  {
    hide Decode, Covered, Dispatch, ControlSetup, Packets, Cut, NeedsZlp, Armed, Sending, Sends;
    ReadIsCut(chip, t, u, p);
    var w := Dispatch(chip, t, AtDispatch(u, p)).1;
    hide Inv;
    CutSends(ControlSetup(chip, t, u, p), w.buffer[..w.datasize], Decode(p[..8]).wLength);
  }

  predicate AsksUpload(req: Setup) {
    req == UploadSetup(req.wValue, req.wIndex) && req.wValue != 0
  }

  lemma UploadPackets(chip: Chip, t: Target, u: Usb, p: seq<Byte>)
    requires chip.Valid() && chip.Holds(t.mem) && Inv(u) && Whole(p) && CoveredEvent(SetupPacket(p))
    requires chip.upload && AsksUpload(Decode(p[..8]))
    requires InUserArea(chip, BlockAddress(t.addr, Decode(p[..8]).wValue), TRANSFER_SIZE)
    ensures var at := BlockAddress(t.addr, Decode(p[..8]).wValue) - FLASH_BASE;
            at + TRANSFER_SIZE <= |t.mem| && Sends(ControlSetup(chip, t, u, p), t.mem[at..at + TRANSFER_SIZE])
  {
    hide Decode, BlockAddress, Covered, ControlSetup, Sends;
    var v := AtDispatch(u, p);
    DispatchUpload(chip, t, v);
    hide Dispatch;
    var w := Dispatch(chip, t, v).1;
    assert w.buffer[..TRANSFER_SIZE] == w.buffer;
    ReadSends(chip, t, u, p);
  }

  lemma UploadDecodes(block: U16, iface: U16)
    ensures var p := Encode(UploadSetup(block, iface));
            Whole(p) && Decode(p[..8]) == UploadSetup(block, iface) && CoveredEvent(SetupPacket(p))
  {
    var p := Encode(UploadSetup(block, iface));
    DecodeEncode(UploadSetup(block, iface));
    assert p[..8] == p;
    hide Encode, Decode;
  }

  /** An upload of a block inside the user area sends exactly that part of the flash. */
  lemma UploadSendsFlash(chip: Chip, d: Dev, block: U16, iface: U16)
    requires Good(chip, d) && Alive(d) && d.usb.rx != Disabled && chip.upload && block != 0
    requires InUserArea(chip, BlockAddress(d.tgt.addr, block), TRANSFER_SIZE)
    ensures var e := SetupPacket(Encode(UploadSetup(block, iface)));
            var at := BlockAddress(d.tgt.addr, block) - FLASH_BASE;
            && CoveredEvent(e) && at + TRANSFER_SIZE <= |d.tgt.mem|
            && Sends(Step(chip, d, e).usb, d.tgt.mem[at..at + TRANSFER_SIZE])
  {
    var p := Encode(UploadSetup(block, iface));
    UploadDecodes(block, iface);
    hide CoveredEvent, Covered, Whole, ControlSetup, Encode, Decode, BlockAddress, Sends, Inv, InUserArea;
    UploadPackets(chip, d.tgt, d.usb, p);
  }

  /** Download, then upload: after a session, the upload of any full block of the image sends exactly that
      block of it. */
  lemma UploadReturnsImage(chip: Chip, d: Dev, iface: U16, a: U32, image: seq<Byte>, gs: seq<Gap>, k: nat)
    requires Ready(chip, d) && chip.upload && Gaps(image, gs) && Aligned(chip, a) && InUserArea(chip, a, |image|)
    requires k < 0xFFFD && (k + 1) * TRANSFER_SIZE <= |image|
    ensures var r, e := Run(chip, d, Session(iface, a, image, gs)), SetupPacket(Encode(UploadSetup(k + 2, iface)));
            && Good(chip, r) && CoveredEvent(e)
            && Sends(Step(chip, r, e).usb, image[k * TRANSFER_SIZE..(k + 1) * TRANSFER_SIZE])
  {
    hide Run, Executed, Session, Step, Sends, Encode, ApplyAll, Chip.PageOf, Gaps, CarriesAll, EvenPart;
    var r := Run(chip, d, Session(iface, a, image, gs));
    SessionKeepsPointer(chip, d, iface, a, image, gs);
    ChunkAddress(chip, a, image, k);
    UploadSendsFlash(chip, r, k + 2, iface);
    BlockOfImage(chip, d, iface, a, image, gs, k);
    hide BlockAddress, InUserArea, ChunkCount, Harmless, CoveredEvent;
  }

  lemma BlockOfImage(chip: Chip, d: Dev, iface: U16, a: U32, image: seq<Byte>, gs: seq<Gap>, k: nat)
    requires Ready(chip, d) && Gaps(image, gs) && Aligned(chip, a) && InUserArea(chip, a, |image|)
    requires (k + 1) * TRANSFER_SIZE <= |image|
    ensures var at, mem := a + k * TRANSFER_SIZE - FLASH_BASE, Run(chip, d, Session(iface, a, image, gs)).tgt.mem;
            && at + TRANSFER_SIZE <= |mem|
            && mem[at..at + TRANSFER_SIZE] == image[k * TRANSFER_SIZE..(k + 1) * TRANSFER_SIZE]
  {
    hide Run, Session, Chip.PageOf, Gaps, EvenPart;
    var r := Run(chip, d, Session(iface, a, image, gs));
    ImageStored(chip, d, iface, a, image, gs);
    EvenSlice(image, k * TRANSFER_SIZE, (k + 1) * TRANSFER_SIZE);
    SliceOfSlice(r.tgt.mem, a - FLASH_BASE, |EvenPart(image)|, k * TRANSFER_SIZE, (k + 1) * TRANSFER_SIZE);
  }

  lemma SessionKeepsPointer(chip: Chip, d: Dev, iface: U16, a: U32, image: seq<Byte>, gs: seq<Gap>)
    requires Ready(chip, d) && Gaps(image, gs)
    ensures var r := Run(chip, d, Session(iface, a, image, gs)); r.tgt.addr == a && Ready(chip, r)
  {
    hide Run, Executed, Session, ApplyAll, CarriesAll, AllHarmless;
    var cs := SessionRuns(chip, d, iface, a, image, gs);
    BlocksState(chip, d.tgt.(addr := a), cs);
  }

  lemma EvenSlice(image: seq<Byte>, i: nat, j: nat)
    requires i <= j <= |image| && j % 2 == 0
    ensures j <= |EvenPart(image)| && EvenPart(image)[i..j] == image[i..j]
  {
  }

  lemma SliceOfSlice(s: seq<Byte>, at: nat, n: nat, i: nat, j: nat)
    requires at + n <= |s| && i <= j <= n
    ensures s[at..at + n][i..j] == s[at + i..at + j]
  {
    var t, u := s[at..at + n][i..j], s[at + i..at + j];
    forall k | 0 <= k < j - i
      ensures t[k] == u[k]
    {
    }
  }
}
