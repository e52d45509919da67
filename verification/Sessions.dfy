/** End to end: a whole session, the blocks of an image and the polls between them with any harmless traffic
    around, puts the image into flash. */
module Sessions {
  import opened Words
  import opened Flash
  import opened Commands
  import opened CommandRuns
  import opened Control
  import opened Device
  import opened Monitor
  import opened Download
  import opened Deferred
  import opened Staying

  // ---- Blocks --------------------------------------------------------------------------------

  /** Traffic between a DNLOAD and its poll, and after that poll. */
  datatype Gap = Gap(during: seq<Event>, after: seq<Event>)

  /** Any traffic that neither replaces nor cancels a recorded command: bus resets, descriptor and status
      requests, transfers broken off, packets of any size. */
  predicate Harmless(g: Gap) {
    && CoveredRun(g.during) && CoveredRun(g.after)
    && (forall e :: e in g.during ==> Spares(e)) && (forall e :: e in g.after ==> Spares(e))
  }

  predicate AllHarmless(gs: seq<Gap>) {
    forall g :: g in gs ==> Harmless(g)
  }

  /** One DNLOAD and the GETSTATUS that makes it happen. */
  function Write(iface: U16, b: Block, g: Gap): (es: seq<Event>)
    requires Sendable(b) && Harmless(g)
    ensures CoveredRun(es)
  {
    Dnload(b.num, iface, b.data) + (g.during + GetStatus(iface)) + g.after
  }

  predicate AllSendable(bs: seq<Block>) {
    forall b :: b in bs ==> Sendable(b)
  }

  lemma SendableParts(bs: seq<Block>, gs: seq<Gap>)
    requires |gs| == |bs| > 0 && AllHarmless(gs) && AllSendable(bs)
    ensures var n := |bs| - 1;
            Sendable(bs[n]) && Harmless(gs[n]) && AllSendable(bs[..n]) && AllHarmless(gs[..n])
  {
    hide Sendable, Harmless;
    var n := |bs| - 1;
    assert bs[n] in bs && gs[n] in gs;
    assert forall g :: g in gs[..n] ==> g in gs;
  }

  function WriteAll(iface: U16, bs: seq<Block>, gs: seq<Gap>): (es: seq<Event>)
    requires |gs| == |bs| && AllHarmless(gs) && AllSendable(bs)
    ensures CoveredRun(es)
  {
    if bs == [] then []
    else
      var n := |bs| - 1;
      SendableParts(bs, gs);
      WriteAll(iface, bs[..n], gs[..n]) + Write(iface, bs[n], gs[n])
  }

  lemma WriteRuns(chip: Chip, d: Dev, iface: U16, b: Block, g: Gap) returns (c: Command)
    requires Ready(chip, d) && Sendable(b) && Harmless(g)
    ensures Carries(c, b) && Ready(chip, Run(chip, d, Write(iface, b, g)))
    ensures Executed(chip, d, Write(iface, b, g)) == [c]
    ensures Run(chip, d, Write(iface, b, g)).tgt == Apply(chip, d.tgt, c)
  {
    hide Run, Executed, Apply, Dnload, GetStatus, Spares, Inv, Waits;
    var d1 := Run(chip, d, Dnload(b.num, iface, b.data));
    DnloadRuns(chip, d, b.num, iface, b.data);
    c := DownloadExecutesOnce(chip, d, b.num, iface, b.data, g.during);
    var polled := g.during + GetStatus(iface);
    var d2 := Run(chip, d1, polled);
    RecordedWaits(d1.usb, b.num, b.data);
    StatusSpares(iface);
    PolledReady(chip, d1, polled, c);
    QuietRun(chip, d2, g.after);
    var d3 := Run(chip, d2, g.after);
    RunConcat(chip, d, Dnload(b.num, iface, b.data), polled);
    ExecutedConcat(chip, d, Dnload(b.num, iface, b.data), polled);
    RunConcat(chip, d, Dnload(b.num, iface, b.data) + polled, g.after);
    ExecutedConcat(chip, d, Dnload(b.num, iface, b.data) + polled, g.after);
  }

  lemma RecordedWaits(u: Usb, block: U16, data: seq<Byte>)
    requires Recorded(u, block, data)
    ensures Waits(u) && u.dfu.state.Pending() && u.rx != Disabled
  {
  }

  lemma PolledReady(chip: Chip, d: Dev, es: seq<Event>, c: Command)
    requires Good(chip, d) && Waits(d.usb) && d.usb.dfu.state.Pending() && d.usb.rx != Disabled
    requires CoveredRun(es) && (forall e :: e in es ==> Spares(e)) && Executed(chip, d, es) == [c]
    ensures var r := Run(chip, d, es); Ready(chip, r) && Waits(r.usb) && !r.usb.dfu.state.Pending()
  {
    hide Run, Executed, Spares, Inv, Waits, Apply;
    ExactlyOnce(chip, d, es);
    WaitsAlive(Run(chip, d, es));
    RunKeepsReady(chip, d, es);
  }

  lemma QuietRun(chip: Chip, d: Dev, es: seq<Event>)
    requires Ready(chip, d) && Waits(d.usb) && !d.usb.dfu.state.Pending()
    requires CoveredRun(es) && forall e :: e in es ==> Spares(e)
    ensures Ready(chip, Run(chip, d, es)) && Run(chip, d, es).tgt == d.tgt && Executed(chip, d, es) == []
  {
    hide Run, Executed, Spares, Inv, Waits, Apply;
    ExactlyOnce(chip, d, es);
    WaitsAlive(Run(chip, d, es));
    RunKeepsReady(chip, d, es);
  }

  predicate CarriesAll(cs: seq<Command>, bs: seq<Block>) {
    |cs| == |bs| && forall k :: 0 <= k < |cs| ==> Carries(cs[k], bs[k])
  }

  /** A run that executes the commands of bs, in order and nothing else, and ends ready for more. */
  predicate Delivers(chip: Chip, d: Dev, es: seq<Event>, bs: seq<Block>)
    requires Good(chip, d) && CoveredRun(es)
  {
    CarriesAll(Executed(chip, d, es), bs) && Ready(chip, Run(chip, d, es))
  }

  lemma DeliversMore(chip: Chip, d: Dev, es: seq<Event>, bs: seq<Block>, fs: seq<Event>, c: Command, b: Block)
    requires Good(chip, d) && CoveredRun(es) && CoveredRun(fs) && Delivers(chip, d, es, bs) && Carries(c, b)
    requires Delivers(chip, Run(chip, d, es), fs, [b])
    ensures CoveredRun(es + fs) && Delivers(chip, d, es + fs, bs + [b])
  {
    hide Ready, Run, Executed, Carries;
    RunConcat(chip, d, es, fs);
    ExecutedConcat(chip, d, es, fs);
    var cs, last := Executed(chip, d, es), Executed(chip, Run(chip, d, es), fs);
    assert last == [last[0]];
    CarriesExtend(cs, bs, last[0], b);
    hide CarriesAll;
  }

  lemma WriteDelivers(chip: Chip, d: Dev, iface: U16, b: Block, g: Gap) returns (c: Command)
    requires Ready(chip, d) && Sendable(b) && Harmless(g)
    ensures Carries(c, b) && Delivers(chip, d, Write(iface, b, g), [b])
  {
    hide Run, Executed, Carries, Write, Harmless, Inv;
    c := WriteRuns(chip, d, iface, b, g);
  }

  /** Every block sent is executed exactly once, in order, with exactly its bytes, and nothing else is. */
  lemma {:induction false} WriteAllRuns(chip: Chip, d: Dev, iface: U16, bs: seq<Block>, gs: seq<Gap>)
    requires Ready(chip, d) && |gs| == |bs| && AllHarmless(gs) && AllSendable(bs)
    ensures Delivers(chip, d, WriteAll(iface, bs, gs), bs)
  {
    hide *;
    ReadyGood(chip, d);
    if bs == [] {
      NoneDelivered(chip, d, iface);
    } else {
      var n := |bs| - 1;
      SendableParts(bs, gs);
      WriteAllStep(iface, bs, gs);
      var init := WriteAll(iface, bs[..n], gs[..n]);
      WriteAllRuns(chip, d, iface, bs[..n], gs[..n]);
      DeliversReady(chip, d, init, bs[..n]);
      var c := WriteDelivers(chip, Run(chip, d, init), iface, bs[n], gs[n]);
      DeliversMore(chip, d, init, bs[..n], Write(iface, bs[n], gs[n]), c, bs[n]);
      assert bs == bs[..n] + [bs[n]];
    }
  }

  lemma WriteAllStep(iface: U16, bs: seq<Block>, gs: seq<Gap>)
    requires |gs| == |bs| > 0 && AllHarmless(gs) && AllSendable(bs)
    ensures var n := |bs| - 1;
            && Sendable(bs[n]) && Harmless(gs[n]) && AllSendable(bs[..n]) && AllHarmless(gs[..n])
            && WriteAll(iface, bs, gs) == WriteAll(iface, bs[..n], gs[..n]) + Write(iface, bs[n], gs[n])
  {
    SendableParts(bs, gs);
    hide Write, AllHarmless, AllSendable;
  }

  lemma NoneDelivered(chip: Chip, d: Dev, iface: U16)
    requires Ready(chip, d)
    ensures AllHarmless([]) && AllSendable([]) && WriteAll(iface, [], []) == [] && Delivers(chip, d, [], [])
  {
  }

  lemma DeliversReady(chip: Chip, d: Dev, es: seq<Event>, bs: seq<Block>)
    requires Good(chip, d) && CoveredRun(es) && Delivers(chip, d, es, bs)
    ensures Ready(chip, Run(chip, d, es)) && CarriesAll(Executed(chip, d, es), bs)
  {
  }

  lemma ReadyGood(chip: Chip, d: Dev)
    requires Ready(chip, d)
    ensures Good(chip, d)
  {
  }

  lemma CarriesExtend(cs: seq<Command>, bs: seq<Block>, c: Command, b: Block)
    requires CarriesAll(cs, bs) && Carries(c, b)
    ensures CarriesAll(cs + [c], bs + [b])
  {
    hide Carries;
  }

  // ---- A whole image -------------------------------------------------------------------------

  const SETADDR_BLOCK: U16 := 0

  function SetAddress(a: U32): (b: Block)
    ensures Sendable(b) && b.num == SETADDR_BLOCK
  {
    Block(SETADDR_BLOCK, [CMD_SETADDR] + Bytes32(a))
  }

  /** The image in 4096-byte blocks numbered 2, 3, ..., as far as block count n. */
  function Chunks(image: seq<Byte>, n: nat): (bs: seq<Block>)
    requires n <= 0xFFFD && (n == 0 || (n - 1) * TRANSFER_SIZE < |image|)
    ensures |bs| == n && AllSendable(bs)
  {
    seq(n, k requires 0 <= k < n => Chunk(image, k))
  }

  function Chunk(image: seq<Byte>, k: nat): (b: Block)
    requires k < 0xFFFD && k * TRANSFER_SIZE < |image|
    ensures Sendable(b)
  {
    Block(k + 2, image[k * TRANSFER_SIZE..Min((k + 1) * TRANSFER_SIZE, |image|)])
  }

  function ChunkCount(image: seq<Byte>): (n: nat)
    ensures |image| <= n * TRANSFER_SIZE && (n == 0 || (n - 1) * TRANSFER_SIZE < |image|)
  {
    (|image| + TRANSFER_SIZE - 1) / TRANSFER_SIZE
  }

  /** The gaps of a session: one for the address, one a block. */
  predicate Gaps(image: seq<Byte>, gs: seq<Gap>) {
    ChunkCount(image) <= 0xFFFD && |gs| == 1 + ChunkCount(image) && AllHarmless(gs)
  }

  /** The whole session: set the address pointer, then send the image. */
  function Session(iface: U16, a: U32, image: seq<Byte>, gs: seq<Gap>): (es: seq<Event>)
    requires Gaps(image, gs)
    ensures CoveredRun(es)
  {
    assert gs[0] in gs && forall g :: g in gs[1..] ==> g in gs;
    Write(iface, SetAddress(a), gs[0]) + WriteAll(iface, Chunks(image, ChunkCount(image)), gs[1..])
  }

  lemma SetAddressRuns(chip: Chip, d: Dev, iface: U16, a: U32, g: Gap) returns (c: Command)
    requires Ready(chip, d) && Harmless(g)
    ensures Ready(chip, Run(chip, d, Write(iface, SetAddress(a), g)))
    ensures Run(chip, d, Write(iface, SetAddress(a), g)).tgt == d.tgt.(addr := a)
    ensures Executed(chip, d, Write(iface, SetAddress(a), g)) == [c] && Carries(c, SetAddress(a))
  {
    hide Run, Executed, Write, Harmless;
    c := WriteRuns(chip, d, iface, SetAddress(a), g);
    var data := SetAddress(a).data;
    assert c.buf[..5] == data && c.block == 0;
    assert forall k :: 0 <= k < 5 ==> c.buf[k] == c.buf[..5][k];
    assert c.buf[0] == CMD_SETADDR;
    assert Le32(c.buf, 1) == Le32(Bytes32(a), 0) by {
      assert forall k :: 0 <= k < 4 ==> data[k + 1] == Bytes32(a)[k];
    }
  }

  /** Where block k of the image goes, for images inside the user area. */
  lemma ChunkAddress(chip: Chip, a: U32, image: seq<Byte>, k: nat)
    requires chip.Valid() && InUserArea(chip, a, |image|)
    requires k < 0xFFFD && k * TRANSFER_SIZE < |image|
    ensures BlockAddress(a, k + 2) == a + k * TRANSFER_SIZE
    ensures InUserArea(chip, BlockAddress(a, k + 2), |Chunk(image, k).data|)
  {
  }

  /** A session executes the command that sets the address and then those of the blocks, cs, and nothing else. */
  lemma SessionRuns(chip: Chip, d: Dev, iface: U16, a: U32, image: seq<Byte>, gs: seq<Gap>) returns (cs: seq<Command>)
    requires Ready(chip, d) && Gaps(image, gs)
    ensures CarriesAll(cs, Chunks(image, ChunkCount(image))) && AllBlocks(cs)
    ensures CarriesAll(Executed(chip, d, Session(iface, a, image, gs)),
                       [SetAddress(a)] + Chunks(image, ChunkCount(image)))
    ensures Ready(chip, Run(chip, d, Session(iface, a, image, gs)))
    ensures Run(chip, d, Session(iface, a, image, gs)).tgt == ApplyAll(chip, d.tgt.(addr := a), cs)
  {
    hide Run, Executed, Write, WriteAll, Harmless, ApplyAll, ChunkCount, SetAddress;
    var bs := Chunks(image, ChunkCount(image));
    assert gs[0] in gs && forall g :: g in gs[1..] ==> g in gs;
    var first, rest := Write(iface, SetAddress(a), gs[0]), WriteAll(iface, bs, gs[1..]);
    var c := SetAddressRuns(chip, d, iface, a, gs[0]);
    var d1 := Run(chip, d, first);
    WriteAllRuns(chip, d1, iface, bs, gs[1..]);
    DeliversReady(chip, d1, rest, bs);
    RunAppliesExecuted(chip, d1, rest);
    cs := Executed(chip, d1, rest);
    CarriesChunks(cs, image);
    RunConcat(chip, d, first, rest);
    ExecutedConcat(chip, d, first, rest);
    CarriesPrepend(c, SetAddress(a), cs, bs);
  }

  lemma CarriesPrepend(c: Command, b: Block, cs: seq<Command>, bs: seq<Block>)
    requires Carries(c, b) && CarriesAll(cs, bs)
    ensures CarriesAll([c] + cs, [b] + bs)
  {
    hide Carries;
  }

  lemma CarriesChunks(cs: seq<Command>, image: seq<Byte>)
    requires ChunkCount(image) <= 0xFFFD && CarriesAll(cs, Chunks(image, ChunkCount(image)))
    ensures AllBlocks(cs)
  {
    forall c | c in cs
      ensures c.Valid() && c.block != 0
    {
      var k :| 0 <= k < |cs| && cs[k] == c;
      assert Carries(cs[k], Chunks(image, ChunkCount(image))[k]);
    }
  }

  /** End to end, content: from any state that is ready for a transfer, whatever the flash held, the session of
      an image puts every byte of it at its place, save an odd last one. */
  lemma ImageStored(chip: Chip, d: Dev, iface: U16, a: U32, image: seq<Byte>, gs: seq<Gap>)
    requires Ready(chip, d) && Gaps(image, gs) && Aligned(chip, a) && InUserArea(chip, a, |image|)
    ensures var at := a - FLASH_BASE;
            Run(chip, d, Session(iface, a, image, gs)).tgt.mem[at..at + |EvenPart(image)|] == EvenPart(image)
  {
    hide Run, Executed, Session, AllHarmless, EvenPart, Chip.PageOf;
    var cs := SessionRuns(chip, d, iface, a, image, gs);
    StoredAll(chip, d.tgt.(addr := a), cs, image);
  }

  lemma StoredAll(chip: Chip, t: Target, cs: seq<Command>, image: seq<Byte>)
    requires chip.Valid() && chip.Holds(t.mem) && AllBlocks(cs) && ChunkCount(image) <= 0xFFFD
    requires CarriesAll(cs, Chunks(image, ChunkCount(image)))
    requires Aligned(chip, t.addr) && InUserArea(chip, t.addr, |image|)
    ensures var at := t.addr - FLASH_BASE;
            ApplyAll(chip, t, cs).mem[at..at + |EvenPart(image)|] == EvenPart(image)
  {
    hide ApplyAll, Chip.PageOf, CarriesAll;
    forall x | 0 <= x < |EvenPart(image)|
      ensures ApplyAll(chip, t, cs).mem[t.addr - FLASH_BASE + x] == image[x]
    {
      StoredAt(chip, t, cs, image, x);
    }
  }

  /** Byte x of the image is in block x / 4096 of it. */
  lemma ChunkHolds(image: seq<Byte>, x: nat)
    requires x < |EvenPart(image)| && ChunkCount(image) <= 0xFFFD
    ensures var k := x / TRANSFER_SIZE;
            && k < ChunkCount(image) && k * TRANSFER_SIZE < |image| && k * TRANSFER_SIZE <= x
            && x - k * TRANSFER_SIZE < |EvenPart(Chunk(image, k).data)|
            && Chunk(image, k).data[x - k * TRANSFER_SIZE] == image[x]
  {
    var k := x / TRANSFER_SIZE;
    assert |EvenPart(Chunk(image, k).data)| == Min(TRANSFER_SIZE, |EvenPart(image)| - k * TRANSFER_SIZE);
  }

  /** Different blocks of the image have different numbers. */
  lemma ChunksDistinct(cs: seq<Command>, image: seq<Byte>, k: nat, j: nat)
    requires ChunkCount(image) <= 0xFFFD && CarriesAll(cs, Chunks(image, ChunkCount(image)))
    requires k < j < |cs|
    ensures cs[j].block != cs[k].block
  {
    assert Carries(cs[j], Chunks(image, ChunkCount(image))[j]);
    assert Carries(cs[k], Chunks(image, ChunkCount(image))[k]);
  }

  lemma StoredAt(chip: Chip, t: Target, cs: seq<Command>, image: seq<Byte>, x: nat)
    requires chip.Valid() && chip.Holds(t.mem) && AllBlocks(cs) && ChunkCount(image) <= 0xFFFD
    requires CarriesAll(cs, Chunks(image, ChunkCount(image)))
    requires Aligned(chip, t.addr) && InUserArea(chip, t.addr, |image|) && x < |EvenPart(image)|
    ensures t.addr - FLASH_BASE + x < |t.mem|
    ensures ApplyAll(chip, t, cs).mem[t.addr - FLASH_BASE + x] == image[x]
  {
    hide ApplyAll, Chip.PageOf, EvenPart, ChunkCount;
    ChunkHolds(image, x);
    var k := x / TRANSFER_SIZE;
    assert Carries(cs[k], Chunks(image, ChunkCount(image))[k]);
    ChunkAddress(chip, t.addr, image, k);
    forall j | k < j < |cs|
      ensures cs[j].block != cs[k].block
    {
      ChunksDistinct(cs, image, k, j);
    }
    assert BlockAddress(t.addr, cs[k].block) + (x - k * TRANSFER_SIZE) == t.addr + x;
    hide CarriesAll, Chunks, Chunk, BlockAddress;
    LastBlockWins(chip, t, cs, k, x - k * TRANSFER_SIZE);
  }

  /** End to end, frame: every byte outside the pages the image meets is as the first block found it,
      which in the ordinary build is as it was before the session. */
  lemma RestUntouched(chip: Chip, d: Dev, iface: U16, a: U32, image: seq<Byte>, gs: seq<Gap>, i: nat)
    requires Ready(chip, d) && Gaps(image, gs) && image != []
    requires InUserArea(chip, a, |image|) && i < |d.tgt.mem| && OutsidePages(chip, a, |image|, i)
    ensures Run(chip, d, Session(iface, a, image, gs)).tgt.mem[i] == Prepared(chip, d.tgt)[i]
    ensures !chip.safeWrite ==> Run(chip, d, Session(iface, a, image, gs)).tgt.mem[i] == d.tgt.mem[i]
  {
    hide Run, Executed, Session, AllHarmless, Chip.PageOf;
    var cs := SessionRuns(chip, d, iface, a, image, gs);
    RestAt(chip, d.tgt.(addr := a), cs, image, i);
  }

  /** Cell i lies in no page that the range meets. */
  predicate OutsidePages(chip: Chip, a: int, len: nat, i: int) {
    FLASH_BASE + i < chip.PageOf(a) || chip.PageOf(a + len - 1) + chip.PageSize() <= FLASH_BASE + i
  }

  lemma RestAt(chip: Chip, t: Target, cs: seq<Command>, image: seq<Byte>, i: nat)
    requires chip.Valid() && chip.Holds(t.mem) && AllBlocks(cs) && ChunkCount(image) <= 0xFFFD
    requires CarriesAll(cs, Chunks(image, ChunkCount(image)))
    requires InUserArea(chip, t.addr, |image|) && i < |t.mem| && image != []
    requires FLASH_BASE + i < chip.PageOf(t.addr)
             || chip.PageOf(t.addr + |image| - 1) + chip.PageSize() <= FLASH_BASE + i
    ensures ApplyAll(chip, t, cs).mem[i] == Prepared(chip, t)[i]
  {
    hide ApplyAll, Chip.PageOf, InPages, Chunk, Carries;
    forall c | c in cs
      ensures !InPages(chip, t.addr, c, i)
    {
      var k :| 0 <= k < |cs| && cs[k] == c;
      assert Carries(cs[k], Chunks(image, ChunkCount(image))[k]);
      ChunkInPages(chip, t.addr, cs[k], image, k, i);
    }
    BlocksFrame(chip, t, cs, i);
  }

  /** The pages of one block of the image are pages of the image. */
  lemma ChunkInPages(chip: Chip, a: U32, c: Command, image: seq<Byte>, k: nat, i: nat)
    requires chip.Valid() && InUserArea(chip, a, |image|) && image != []
    requires k < 0xFFFD && k * TRANSFER_SIZE < |image| && Carries(c, Chunk(image, k))
    requires FLASH_BASE + i < chip.PageOf(a)
             || chip.PageOf(a + |image| - 1) + chip.PageSize() <= FLASH_BASE + i
    ensures !InPages(chip, a, c, i)
  {
    hide Chip.PageOf;
    ChunkAddress(chip, a, image, k);
    var base := a + k * TRANSFER_SIZE;
    PageMonotone(chip, a, base);
    PageMonotone(chip, base + c.len - 1, a + |image| - 1);
  }

  // ---- From power-on -------------------------------------------------------------------------

  /** After power-on, a bus reset and traffic that stays in DFU mode the device is ready. */
  lemma PowerOnReady(chip: Chip, mem: seq<Byte>, es: seq<Event>)
    requires chip.Valid() && chip.Holds(mem) && CoveredRun([Reset] + es) && Stays(false, [Reset] + es)
    ensures Ready(chip, Run(chip, PowerOn(chip, mem), [Reset] + es))
  {
    hide Run, Stays;
    assert ([Reset] + es)[0] == Reset;
    RunStays(chip, PowerOn(chip, mem), [Reset] + es, false);
  }

  /** From power-on: a bus reset, any traffic that stays in DFU mode, then one session; the image is in the flash
      and the bootloader is what it was. All that is asked of the traffic is asked of its packets. */
  lemma EndToEnd(
      chip: Chip, mem: seq<Byte>, es: seq<Event>, iface: U16, a: U32, image: seq<Byte>, gs: seq<Gap>)
    requires chip.Valid() && chip.Holds(mem) && CoveredRun([Reset] + es) && Stays(false, [Reset] + es)
    requires Gaps(image, gs) && Aligned(chip, a) && InUserArea(chip, a, |image|)
    ensures CoveredRun([Reset] + es + Session(iface, a, image, gs))
    ensures var r := Run(chip, PowerOn(chip, mem), [Reset] + es + Session(iface, a, image, gs)).tgt.mem;
            var at := a - FLASH_BASE;
            && |r| == |mem| && r[at..at + |EvenPart(image)|] == EvenPart(image) && r[..BOOT_SIZE] == mem[..BOOT_SIZE]
  {
    hide Run, Executed, Session, AllHarmless, EvenPart, Chip.PageOf, Stays, PowerOn;
    var d := PowerOn(chip, mem);
    var all := [Reset] + es;
    PowerOnReady(chip, mem, es);
    RunConcat(chip, d, all, Session(iface, a, image, gs));
    ImageStored(chip, Run(chip, d, all), iface, a, image, gs);
    BootloaderSurvives(chip, d, all + Session(iface, a, image, gs));
    PowerOnTarget(chip, mem);
  }

  lemma PowerOnTarget(chip: Chip, mem: seq<Byte>)
    requires chip.Valid() && chip.Holds(mem)
    ensures PowerOn(chip, mem).tgt == Target(mem, 0, false)
  {
  }
}
