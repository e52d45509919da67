/** What the request handlers promise the host: replies that describe themselves, states reported as they
    are, commands that only a download records, and halts that read back. */
module RequestLaws {
  import opened Words
  import opened Flash
  import opened Commands
  import opened DfuRequests
  import opened Control

  // ---- DFU requests --------------------------------------------------------------------------

  lemma CodeInjective(s: DfuState, t: DfuState)
    requires s.Code() == t.Code()
    ensures s == t
  {
  }

  /** The state a status reply reports is the state the device is in after the request, so the host can
      follow it; the status byte says error exactly in the error state, and a poll delay is asked for
      exactly when a command becomes busy. */
  lemma StatusReportsState(chip: Chip, t: Target, d: Dfu, req: Setup, buffer: seq<Byte>, s: DfuState)
    requires chip.Holds(t.mem) && |buffer| == TRANSFER_SIZE && |d.prog.buf| == TRANSFER_SIZE
    requires req.bRequest == DFU_GETSTATUS || req.bRequest == DFU_GETSTATE
    ensures var y := DfuRequest(chip, t, d, req, buffer, req.wLength);
            var at := if req.bRequest == DFU_GETSTATUS then 4 else 0;
            && y.code == Handled && y.dfu.prog == d.prog
            && y.len == (if req.bRequest == DFU_GETSTATUS then 6 else 1)
            && (y.buffer[at] == s.Code() <==> y.dfu.state == s)
            && (req.bRequest == DFU_GETSTATE ==> y.dfu == d)
            && (req.bRequest == DFU_GETSTATUS ==>
                  && (y.buffer[0] != STATUS_OK <==> y.dfu.state == Error)
                  && (y.buffer[1] != 0 <==> !(y.dfu.state == d.state) && y.dfu.state == DnBusy))
  {
    var y := DfuRequest(chip, t, d, req, buffer, req.wLength);
    if req.bRequest == DFU_GETSTATUS {
      StatusBytes(buffer, d.state);
    } else {
      assert y.buffer[0..1] == [d.state.Code()];
      assert y.buffer[0] == y.buffer[0..1][0];
    }
    hide Overwrite;
    if y.dfu.state != s && y.dfu.state.Code() == s.Code() {
      CodeInjective(y.dfu.state, s);
    }
  }

  lemma StatusBytes(buffer: seq<Byte>, s: DfuState)
    requires |buffer| == TRANSFER_SIZE
    ensures forall k :: 0 <= k < 6 ==> Overwrite(buffer, 0, StatusReply(s))[k] == StatusReply(s)[k]
  {
    var r := Overwrite(buffer, 0, StatusReply(s));
    assert r[0..6] == StatusReply(s);
    forall k | 0 <= k < 6
      ensures r[k] == StatusReply(s)[k]
    {
      assert r[0..6][k] == r[k];
    }
  }

  /** A command is recorded by a DNLOAD with data and by nothing else; while one is recorded, status
      queries, CLRSTATUS and unknown requests leave it as it is, and every other request drops it. They also
      leave it done, once it is. */
  lemma PendingExactly(chip: Chip, t: Target, d: Dfu, req: Setup, buffer: seq<Byte>, len: U16)
    requires chip.Holds(t.mem) && |buffer| == TRANSFER_SIZE && |d.prog.buf| == TRANSFER_SIZE
    ensures var r := DfuRequest(chip, t, d, req, buffer, len).dfu;
            && (r.state.Pending() <==>
                  || (req.bRequest == DFU_DNLOAD && len != 0)
                  || (d.state.Pending() && req.bRequest !in {DFU_DNLOAD, DFU_ABORT, DFU_DETACH, DFU_UPLOAD}))
            && (r.prog != d.prog ==> req.bRequest == DFU_DNLOAD && len != 0)
            && (req.bRequest !in {DFU_DNLOAD, DFU_ABORT, DFU_DETACH, DFU_UPLOAD} ==>
                  (r.state == DnloadIdle <==> d.state == DnloadIdle))
  {
    hide Overwrite, ReadRange, StatusReply, BlockAddress, Accepts;
  }

  /** An accepted upload inside the user area returns the flash as it is. */
  lemma UploadReturnsFlash(chip: Chip, t: Target, d: Dfu, req: Setup, buffer: seq<Byte>, len: U16)
    requires chip.Valid() && chip.Holds(t.mem) && |buffer| == TRANSFER_SIZE && |d.prog.buf| == TRANSFER_SIZE
    requires req.bRequest == DFU_UPLOAD && req.wValue != 0 && chip.upload
    requires InUserArea(chip, BlockAddress(t.addr, req.wValue), TRANSFER_SIZE)
    ensures var y := DfuRequest(chip, t, d, req, buffer, len);
            var at := BlockAddress(t.addr, req.wValue) - FLASH_BASE;
            && y.code == Handled && y.len == TRANSFER_SIZE && y.dfu == d.(state := UploadIdle) && !y.callback
            && at + TRANSFER_SIZE <= |t.mem| && y.buffer == t.mem[at..at + TRANSFER_SIZE]
  {
    var base := BlockAddress(t.addr, req.wValue);
    hide BlockAddress;
    AcceptsExactly(chip, base, TRANSFER_SIZE);
    var data := ReadRange(chip, t.mem, base, TRANSFER_SIZE);
    var at := base - FLASH_BASE;
    assert at + TRANSFER_SIZE <= |t.mem|;
    ReadRangeInside(chip, t.mem, base, TRANSFER_SIZE);
    OverwriteAll(buffer, data);
    hide Overwrite, ReadRange, Accepts;
  }

  lemma ReadRangeInside(chip: Chip, mem: seq<Byte>, a: U32, n: nat)
    requires chip.Valid() && chip.Holds(mem) && FLASH_BASE <= a && a + n <= chip.End()
    ensures a - FLASH_BASE + n <= |mem|
    ensures ReadRange(chip, mem, a, n) == mem[a - FLASH_BASE..a - FLASH_BASE + n]
  {
    forall i | 0 <= i < n
      ensures ReadRange(chip, mem, a, n)[i] == mem[a - FLASH_BASE + i]
    {
      assert Wrap(a + i) == a + i;
      assert ReadRange(chip, mem, a, n)[i] == Read(chip, mem, a + i);
    }
  }

  lemma OverwriteAll(s: seq<Byte>, data: seq<Byte>)
    requires |s| == |data|
    ensures Overwrite(s, 0, data) == data
  {
  }

  // ---- Standard requests ---------------------------------------------------------------------

  /** What a descriptor says about itself: its kind in byte 1, its length in byte 0, or in bytes 2 and 3
      for the configuration, which counts the interface and functional descriptors behind it too. */
  predicate Describes(data: seq<Byte>, kind: int) {
    && 2 <= |data| <= TRANSFER_SIZE && data[1] == kind
    && |data| == if kind == 2 && 4 <= |data| then Le16(data, 2) else data[0]
  }

  lemma AnswerDescribes(u: Usb, data: seq<Byte>, kind: int)
    requires u.Sized() && Describes(data, kind)
    ensures var v := Answer(u, data).1; v.datasize <= TRANSFER_SIZE && Describes(v.buffer[..v.datasize], kind)
  {
    var v := Answer(u, data).1;
    assert v.buffer[..v.datasize] == data;
  }

  lemma ConfigDescribes(chip: Chip)
    ensures Describes(ConfigDescriptor(chip), 2)
  {
    var data := ConfigDescriptor(chip);
    assert data[1] == 2 && data[2] == 27 && data[3] == 0;
  }

  lemma FixedDescribe()
    ensures Describes(DEVICE_DESCRIPTOR, 1) && Describes([4, 3] + Bytes16(LANGID_ENGLISH), 3)
  {
    assert DEVICE_DESCRIPTOR[0] == |DEVICE_DESCRIPTOR| == 18 && DEVICE_DESCRIPTOR[1] == 1;
  }

  lemma StringDescribes(s: seq<Byte>)
    requires |s| <= 126
    ensures Describes([2 * |s| + 2, 3] + Widen(s), 3)
  {
    hide Widen;
  }

  /** Every descriptor reply is of the kind asked for, and exactly as long as it says. */
  lemma DescriptorsDescribeThemselves(chip: Chip, u: Usb)
    requires chip.Valid() && u.Sized()
    ensures var (ok, v) := GetDescriptor(chip, u);
            ok ==> v.datasize <= TRANSFER_SIZE && Describes(v.buffer[..v.datasize], u.req.wValue / 0x100)
  {
    hide Answer, Overwrite, Widen, ConfigDescriptor, Describes, Bytes16;
    var index, kind := u.req.wValue % 0x100, u.req.wValue / 0x100;
    FixedDescribe();
    if kind == 1 {
      AnswerDescribes(u, DEVICE_DESCRIPTOR, 1);
    } else if kind == 2 {
      ConfigDescribes(chip);
      AnswerDescribes(u, ConfigDescriptor(chip), 2);
    } else if kind == 3 && index == 0 {
      AnswerDescribes(u, [4, 3] + Bytes16(LANGID_ENGLISH), 3);
    } else if kind == 3 && index <= 5 {
      StringDescribes(chip.strings[index - 1]);
      AnswerDescribes(u, [2 * |chip.strings[index - 1]| + 2, 3] + Widen(chip.strings[index - 1]), 3);
    }
  }

  /** Halting an endpoint reads back as halted and clearing it as running; the other endpoint directions
      keep what they had, save that address 0 stands for both directions of endpoint 0. */
  lemma HaltReadsBack(u: Usb, addr: Byte, stall: bool, other: Byte)
    requires u.Sized() && addr % 0x80 < 8 && other % 0x80 < 8
    ensures IsStalled(StallSet(u, addr, stall), other)
            == if other == addr || (addr == 0 && other == 0x80) then stall else IsStalled(u, other)
  {
    hide OnlyReplies;
    assert addr == addr % 0x80 || addr == 0x80 + addr % 0x80;
    assert other == other % 0x80 || other == 0x80 + other % 0x80;
  }
}
