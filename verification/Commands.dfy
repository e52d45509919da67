/** The deferred DFU commands as functions of the memory they act on: address guard, block address
    arithmetic, erase, block write, and the one-time wipe of the protected build. */
module Commands {
  import opened Words
  import opened Flash

  const CMD_SETADDR: Byte := 0x21
  const CMD_ERASE: Byte := 0x41

  /** What a DNLOAD leaves for later: wBlockNum, payload length and the shadow buffer. A payload
      shorter than the buffer leaves older bytes behind it. */
  datatype Command = Command(block: U16, len: nat, buf: seq<Byte>)
  {
    predicate Valid() {
      1 <= len <= TRANSFER_SIZE && |buf| == TRANSFER_SIZE
    }

    function Payload(): seq<Byte>
      requires Valid()
    {
      buf[..len]
    }

    /** Erase commands and data blocks reach the flash; everything else does not. */
    predicate TouchesFlash()
      requires Valid()
    {
      block != 0 || buf[0] == CMD_ERASE
    }
  }

  /** What commands act on: the flash array, the address pointer, and the "already wiped" flag. */
  datatype Target = Target(mem: seq<Byte>, addr: U32, wiped: bool)

  /** The range test of the completion callback, in 32-bit arithmetic. */
  predicate Accepts(chip: Chip, base: U32, len: nat) {
    base >= USER_START && Wrap(base + len) <= chip.End()
  }

  /** The range the test is meant to describe. */
  predicate InUserArea(chip: Chip, base: int, len: nat) {
    0x0800_2000 <= base && base + len <= 0x0800_0000 + 1024 * chip.flashKb
  }

  /** Address_Pointer + (wBlockNum - 2) * wTransferSize, modulo 2^32. */
  function BlockAddress(addr: U32, block: U16): U32 {
    Wrap(addr + (block - 2) * TRANSFER_SIZE)
  }

  /** `check_do_erase` */
  function Wipe(chip: Chip, t: Target): (r: Target)
    requires chip.Holds(t.mem)
    ensures |r.mem| == |t.mem| && r.addr == t.addr
  {
    if !chip.safeWrite || t.wiped then t
    else t.(mem := EraseFrom(chip, t.mem, USER_START, chip.End()), wiped := true)
  }

  /** The effect of one executed command. */
  function Apply(chip: Chip, t: Target, c: Command): (r: Target)
    requires chip.Holds(t.mem) && c.Valid()
    ensures |r.mem| == |t.mem|
  {
    if c.block == 0 then
      if c.buf[0] == CMD_ERASE then
        var w := Wipe(chip, t);
        var base := Le32(c.buf, 1);
        if Accepts(chip, base, TRANSFER_SIZE) then w.(mem := EraseIfDirty(chip, w.mem, base)) else w
      else if c.buf[0] == CMD_SETADDR then t.(addr := Le32(c.buf, 1))
      else t
    else
      var w := Wipe(chip, t);
      var base := BlockAddress(t.addr, c.block);
      if Accepts(chip, base, c.len) then w.(mem := BlockWrite(chip, w.mem, base, c.Payload())) else w
  }

  /** A list of commands, executed in order. */
  function ApplyAll(chip: Chip, t: Target, cs: seq<Command>): (r: Target)
    requires chip.Holds(t.mem) && forall c :: c in cs ==> c.Valid()
    ensures |r.mem| == |t.mem|
  {
    if cs == [] then t
    else Apply(chip, ApplyAll(chip, t, cs[..|cs| - 1]), cs[|cs| - 1])
  }

  // ---- What a command leaves alone -----------------------------------------------------------

  /** Block 2 is at the address pointer, and each block starts a transfer size behind the one before, modulo
      2^32, blocks 0 and 1 included. */
  lemma BlocksFollow(addr: U32, block: U16)
    ensures BlockAddress(addr, 2) == addr
    ensures block < 0xFFFF ==> BlockAddress(addr, block + 1) == Wrap(BlockAddress(addr, block) + 4096)
  {
  }

  /** Commands that neither erase nor carry a block leave flash and wipe flag alone. */
  lemma OthersKeepFlash(chip: Chip, t: Target, c: Command)
    requires chip.Holds(t.mem) && c.Valid() && c.block == 0 && c.buf[0] != 0x41
    ensures Apply(chip, t, c).mem == t.mem && Apply(chip, t, c).wiped == t.wiped
  {
  }

  /** The command that sets the address pointer. */
  predicate SetsPointer(c: Command)
    requires c.Valid()
  {
    c.block == 0 && c.buf[0] == 0x21
  }

  lemma ApplyPointer(chip: Chip, t: Target, c: Command)
    requires chip.Holds(t.mem) && c.Valid()
    ensures Apply(chip, t, c).addr == if SetsPointer(c) then Le32(c.buf, 1) else t.addr
  {
    hide Le32;
  }

  /** Over any list the address pointer is what the last command that sets it carries ... */
  lemma {:induction false} PointerIsLastSet(chip: Chip, t: Target, cs: seq<Command>, j: nat)
    requires chip.Holds(t.mem) && forall c :: c in cs ==> c.Valid()
    requires j < |cs| && SetsPointer(cs[j]) && forall k :: j < k < |cs| ==> !SetsPointer(cs[k])
    ensures ApplyAll(chip, t, cs).addr == Le32(cs[j].buf, 1)
  {
    hide Apply, Le32;
    var n := |cs| - 1;
    ApplyPointer(chip, ApplyAll(chip, t, cs[..n]), cs[n]);
    if j < n {
      PointerIsLastSet(chip, t, cs[..n], j);
    }
  }

  /** ... and what it was if there is none. */
  lemma {:induction false} PointerStays(chip: Chip, t: Target, cs: seq<Command>)
    requires chip.Holds(t.mem) && forall c :: c in cs ==> c.Valid()
    requires forall c :: c in cs ==> !SetsPointer(c)
    ensures ApplyAll(chip, t, cs).addr == t.addr
  {
    hide Apply;
    if cs != [] {
      var n := |cs| - 1;
      PointerStays(chip, t, cs[..n]);
      ApplyPointer(chip, ApplyAll(chip, t, cs[..n]), cs[n]);
    }
  }

  // ---- The range test ------------------------------------------------------------------------

  /** The test admits exactly the user area, plus every range that wraps past 2^32. */
  lemma AcceptsExactly(chip: Chip, base: U32, len: nat)
    requires chip.Valid() && len <= TRANSFER_SIZE
    ensures Accepts(chip, base, len) <==> InUserArea(chip, base, len) || base + len >= TWO_32
  {
  }

  /** A range the test admits although it lies outside the flash. */
  lemma AcceptsWrapped(chip: Chip)
    requires chip.Valid()
    ensures Accepts(chip, 0xFFFF_F000, TRANSFER_SIZE) && !InUserArea(chip, 0xFFFF_F000, TRANSFER_SIZE)
  {
  }

  // ---- One block write -----------------------------------------------------------------------

  lemma ProgramAt(mem: seq<Byte>, base: U32, data: seq<Byte>, i: nat)
    requires i < |mem| && FLASH_BASE + |mem| <= TWO_32 && base + |data| <= TWO_32
    ensures base <= FLASH_BASE + i < base + |data|
            ==> Program(mem, base, data)[i] == And(mem[i], data[FLASH_BASE + i - base])
    ensures !(base <= FLASH_BASE + i < base + |data|) ==> Program(mem, base, data)[i] == mem[i]
  {
  }

  /** Inside the flash no address wraps. */
  lemma BlockWriteInside(chip: Chip, mem: seq<Byte>, base: U32, data: seq<Byte>)
    requires chip.Valid() && chip.Holds(mem) && InUserArea(chip, base, |data|)
    ensures BlockWrite(chip, mem, base, data)
            == Program(EraseFrom(chip, mem, base, base + |data|), base, EvenPart(data))
  {
    hide EraseFrom, Program, EvenPart;
    assert Wrap(base + |data|) == base + |data|;
  }

  /** Where a block write starts on a page boundary it is plain assignment: the payload (less an odd
      last byte) lands at its address, whatever the flash held before. */
  lemma BlockWriteStores(chip: Chip, mem: seq<Byte>, base: U32, data: seq<Byte>, i: nat)
    requires chip.Valid() && chip.Holds(mem) && InUserArea(chip, base, |data|)
    requires Aligned(chip, base) && i < |EvenPart(data)|
    ensures base - FLASH_BASE + i < |mem|
    ensures BlockWrite(chip, mem, base, data)[base - FLASH_BASE + i] == data[i]
  {
    hide Chip.PageOf;
    var k := base - FLASH_BASE + i;
    var erased := EraseFrom(chip, mem, base, base + |data|);
    BlockWriteInside(chip, mem, base, data);
    assert FLASH_BASE + k < chip.PageOf(base + |data| - 1) + chip.PageSize();
    EraseFromAligned(chip, mem, base, base + |data|, k);
    ProgramAt(erased, base, EvenPart(data), k);
    AndErased(data[i]);
  }

  /** No block write reaches outside the pages its range meets. */
  lemma BlockWriteFrame(chip: Chip, mem: seq<Byte>, base: U32, data: seq<Byte>, i: nat)
    requires chip.Valid() && chip.Holds(mem) && InUserArea(chip, base, |data|) && |data| > 0
    requires i < |mem|
    requires FLASH_BASE + i < chip.PageOf(base)
             || chip.PageOf(base + |data| - 1) + chip.PageSize() <= FLASH_BASE + i
    ensures BlockWrite(chip, mem, base, data)[i] == mem[i]
  {
    hide Chip.PageOf;
    EraseFromFrame(chip, mem, base, base + |data|, i);
    BlockWriteInside(chip, mem, base, data);
    var erased := EraseFrom(chip, mem, base, base + |data|);
    assert !(base <= FLASH_BASE + i < base + |EvenPart(data)|);
    ProgramAt(erased, base, EvenPart(data), i);
  }

  /** A block write whose range wraps past 2^32 leaves the whole flash as it was. */
  lemma WrappedBlockWrite(chip: Chip, mem: seq<Byte>, base: U32, data: seq<Byte>)
    requires chip.Valid() && chip.Holds(mem) && |data| <= TRANSFER_SIZE && base + |data| >= TWO_32
    ensures BlockWrite(chip, mem, base, data) == mem
  {
  }

  /** A flash that is blank but for one cell. */
  function BlankBut(chip: Chip, k: nat): (mem: seq<Byte>)
    ensures chip.Holds(mem)
  {
    seq(chip.Size(), i => if i == k then 0 else 0xFF)
  }

  /** Pages are 2 kB on GD chips and 1 kB on the others. */
  predicate SamePage(chip: Chip, x: int, y: int) {
    if chip.gd then x / 2048 == y / 2048 else x / 1024 == y / 1024
  }

  lemma SamePageExactly(chip: Chip, a: int, x: int)
    ensures SamePage(chip, a, x) <==> chip.PageOf(a) <= x < chip.PageOf(a) + chip.PageSize()
  {
  }

  // ---- One erase command ---------------------------------------------------------------------

  /** What an erase command does, beside the wipe it may trigger: with a whole transfer size of user area
      ahead of its address it erases the page there, if that is aligned, and nothing else; otherwise it does
      nothing, so a page that starts less than a transfer size before the end of the flash is never erased
      by it. */
  lemma EraseCommandExactly(chip: Chip, t: Target, c: Command, i: nat)
    requires chip.Valid() && chip.Holds(t.mem) && c.Valid() && c.block == 0 && c.buf[0] == CMD_ERASE
    requires i < |t.mem|
    ensures var base, r := Le32(c.buf, 1), Apply(chip, t, c).mem;
            if InUserArea(chip, base, TRANSFER_SIZE) && SamePage(chip, base, 0x0800_0000 + i)
            then Aligned(chip, base) ==> r[i] == 0xFF
            else r[i] == Wipe(chip, t).mem[i]
  {
    var base, w := Le32(c.buf, 1), Wipe(chip, t);
    SamePageExactly(chip, base, FLASH_BASE + i);
    hide Le32, Wipe, SamePage;
    AcceptsExactly(chip, base, TRANSFER_SIZE);
    EraseAt(chip, w.mem, base, i);
    if InUserArea(chip, base, TRANSFER_SIZE) && Aligned(chip, base)
       && base <= FLASH_BASE + i < base + chip.PageSize() {
      EraseAligned(chip, w.mem, base, i);
    }
    hide EraseIfDirty;
  }

  /** The recorded erase command for an address. */
  predicate Erases(c: Command, base: U32) {
    c.Valid() && c.block == 0 && c.buf[0] == CMD_ERASE && Le32(c.buf, 1) == base
  }

  /** Once the wipe is behind it, an erase command leaves the whole page of its address blank. */
  ghost predicate Clears(chip: Chip, mem: seq<Byte>, addr: U32, c: Command, base: U32)
    requires chip.Valid() && chip.Holds(mem) && Erases(c, base) && InUserArea(chip, base, 1)
  {
    forall i: nat :: i < |mem| && chip.PageOf(base) <= FLASH_BASE + i < chip.PageOf(base) + chip.PageSize()
                     ==> Apply(chip, Target(mem, addr, true), c).mem[i] == 0xFF
  }

  /** An erase command for an address in the user area clears the page of that address, whatever the flash
      held, exactly when the address starts that page and lies a whole transfer size before the end. */
  lemma EraseClearsExactly(chip: Chip, addr: U32, c: Command, base: U32)
    requires chip.Valid() && Erases(c, base) && InUserArea(chip, base, 1)
    ensures (forall mem: seq<Byte> | chip.Holds(mem) :: Clears(chip, mem, addr, c, base))
            <==> InUserArea(chip, base, TRANSFER_SIZE) && Aligned(chip, base)
  {
    hide Chip.PageOf, Le32;
    if InUserArea(chip, base, TRANSFER_SIZE) && Aligned(chip, base) {
      forall mem: seq<Byte> | chip.Holds(mem)
        ensures Clears(chip, mem, addr, c, base)
      {
        forall i: nat | i < |mem| && base <= FLASH_BASE + i < base + chip.PageSize()
          ensures Apply(chip, Target(mem, addr, true), c).mem[i] == 0xFF
        {
          SamePageExactly(chip, base, FLASH_BASE + i);
          EraseCommandExactly(chip, Target(mem, addr, true), c, i);
        }
      }
    } else {
      EraseLeavesFirstCell(chip, addr, c, base);
      assert !Clears(chip, BlankBut(chip, chip.PageOf(base) - FLASH_BASE), addr, c, base);
    }
  }

  /** The first cell of the page, written while all others are blank, survives every other erase command:
      the test of an unaligned address does not see it, and a refused command does not look. */
  lemma EraseLeavesFirstCell(chip: Chip, addr: U32, c: Command, base: U32)
    requires chip.Valid() && Erases(c, base) && InUserArea(chip, base, 1)
    requires !(InUserArea(chip, base, TRANSFER_SIZE) && Aligned(chip, base))
    ensures var k := chip.PageOf(base) - FLASH_BASE;
            && 0 <= k < chip.Size()
            && Apply(chip, Target(BlankBut(chip, k), addr, true), c).mem[k] == 0
            && !Clears(chip, BlankBut(chip, k), addr, c, base)
  {
    PageMonotone(chip, USER_START, base);
    FlashBoundsAligned(chip);
    hide Chip.PageOf, Le32;
    var k: nat := chip.PageOf(base) - FLASH_BASE;
    var mem := BlankBut(chip, k);
    AcceptsExactly(chip, base, TRANSFER_SIZE);
    if InUserArea(chip, base, TRANSFER_SIZE) {
      FirstCellUnseen(chip, base);
    }
    hide EraseIfDirty, BlockWrite, Accepts, BlockAddress;
    assert mem[k] == 0;
    assert Apply(chip, Target(mem, addr, true), c).mem == mem;
  }

  lemma FirstCellUnseen(chip: Chip, base: U32)
    requires chip.Valid() && InUserArea(chip, base, TRANSFER_SIZE) && FLASH_BASE <= chip.PageOf(base) < base
    ensures var mem := BlankBut(chip, chip.PageOf(base) - FLASH_BASE); EraseIfDirty(chip, mem, base) == mem
  {
    hide Chip.PageOf, ErasePage;
    assert WindowErased(chip, BlankBut(chip, chip.PageOf(base) - FLASH_BASE), base);
  }

  // ---- When exactly a block write is plain assignment ----------------------------------------

  /** The even part of the payload arrives, whatever the flash held. */
  ghost predicate EvenFaithful(chip: Chip, base: U32, len: nat)
    requires chip.Valid() && InUserArea(chip, base, len)
  {
    forall mem: seq<Byte>, data: seq<Byte> | chip.Holds(mem) && |data| == len ::
      EvenArrives(chip, mem, base, data)
  }

  ghost predicate EvenArrives(chip: Chip, mem: seq<Byte>, base: U32, data: seq<Byte>)
    requires chip.Holds(mem) && InUserArea(chip, base, |data|)
  {
    forall i: nat :: i < |EvenPart(data)| ==>
      BlockWrite(chip, mem, base, data)[base - FLASH_BASE + i] == data[i]
  }

  /** Inside the page that holds it, even an unaligned window is erased by the conditional erase. */
  lemma OnePageErased(chip: Chip, mem: seq<Byte>, base: U32, i: nat)
    requires chip.Valid() && chip.Holds(mem) && InUserArea(chip, base, i + 1)
    requires base + i < chip.PageOf(base) + chip.PageSize()
    ensures EraseIfDirty(chip, mem, base)[base - FLASH_BASE + i] == 0xFF
  {
    hide Chip.PageOf;
    assert ReadAt(chip, mem, base, i) == mem[base - FLASH_BASE + i];
  }

  lemma OneWindowLoop(chip: Chip, mem: seq<Byte>, base: U32, len: nat)
    requires chip.Holds(mem) && 0 < len <= chip.PageSize()
    ensures EraseFrom(chip, mem, base, base + len) == EraseIfDirty(chip, mem, base)
  {
    var next := base + chip.PageSize();
    assert EraseFrom(chip, EraseIfDirty(chip, mem, base), next, base + len) == EraseIfDirty(chip, mem, base);
  }

  /** Within one page the start need not be aligned. */
  lemma OnePageWriteStores(chip: Chip, mem: seq<Byte>, base: U32, data: seq<Byte>)
    requires chip.Valid() && chip.Holds(mem) && InUserArea(chip, base, |data|)
    requires chip.PageOf(base) < base && |data| > 0
    requires base + |EvenPart(data)| <= chip.PageOf(base) + chip.PageSize()
    ensures EvenArrives(chip, mem, base, data)
  {
    hide Chip.PageOf;
    OneWindowLoop(chip, mem, base, |data|);
    BlockWriteInside(chip, mem, base, data);
    forall i: nat | i < |EvenPart(data)|
      ensures BlockWrite(chip, mem, base, data)[base - FLASH_BASE + i] == data[i]
    {
      OnePageErased(chip, mem, base, i);
      ProgramAt(EraseIfDirty(chip, mem, base), base, EvenPart(data), base - FLASH_BASE + i);
      AndErased(data[i]);
    }
  }

  /** The write runs into the last page of the flash and tests it through a window that ends past it, where
      reads do not return 0xFF: that page is always erased. */
  predicate SeesEnd(chip: Chip, base: U32, len: nat) {
    && chip.elsewhere != 0xFF && len > chip.PageSize()
    && chip.PageOf(base) + 2 * chip.PageSize() == chip.End()
  }

  /** The loop whose window sees the end leaves its whole range blank. */
  lemma SeesEndErases(chip: Chip, mem: seq<Byte>, base: U32, len: nat, i: nat)
    requires chip.Valid() && chip.Holds(mem) && InUserArea(chip, base, len) && i < len
    requires chip.PageOf(base) < base && SeesEnd(chip, base, len)
    ensures EraseFrom(chip, mem, base, base + len)[base - FLASH_BASE + i] == 0xFF
  {
    hide Chip.PageOf;
    var size, second := chip.PageSize(), base + chip.PageSize();
    var once := EraseIfDirty(chip, mem, base);
    NextPage(chip, base);
    assert ReadAt(chip, once, second, chip.End() - second) == chip.elsewhere;
    var twice := EraseIfDirty(chip, once, second);
    assert EraseFrom(chip, twice, second + size, base + len) == twice;
    assert EraseFrom(chip, once, second, base + len) == twice;
    if base + i < chip.PageOf(base) + size {
      OnePageErased(chip, mem, base, i);
    }
  }

  lemma EraseStep(chip: Chip, mem: seq<Byte>, page: int, end: int)
    requires chip.Holds(mem)
    ensures EraseFrom(chip, mem, page, end)
            == if page < end then EraseFrom(chip, EraseIfDirty(chip, mem, page), page + chip.PageSize(), end) else mem
  {
  }

  /** A single written cell in the second page keeps that page from being erased. */
  lemma SecondPageSurvives(chip: Chip, base: U32, len: nat)
    requires chip.Valid() && InUserArea(chip, base, len) && !SeesEnd(chip, base, len)
    requires chip.PageOf(base) < base && base + len > chip.PageOf(base) + chip.PageSize()
    ensures var k := chip.PageOf(base) + chip.PageSize() - FLASH_BASE;
            k < chip.Size() && EraseFrom(chip, BlankBut(chip, k), base, base + len)[k] == 0
  {
    hide Chip.PageOf, SeesEnd, EraseIfDirty, EraseFrom;
    var size, next := chip.PageSize(), base + chip.PageSize();
    var k := chip.PageOf(base) + size - FLASH_BASE;
    var mem := BlankBut(chip, k);
    var once := EraseIfDirty(chip, mem, base);
    forall i | 0 <= i < |mem|
      ensures once[i] == mem[i] || once[i] == 0xFF
    {
      EraseAt(chip, mem, base, i);
    }
    EraseAt(chip, mem, base, k);
    EraseStep(chip, mem, base, base + len);
    EraseStep(chip, once, next, base + len);
    if next < base + len {
      SecondWindowBlank(chip, base, len, once);
      EraseStep(chip, once, next + size, base + len);
      NextPage(chip, base);
      NextPage(chip, next);
      if next + size < base + len {
        EraseFromFrame(chip, once, next + size, base + len, k);
      }
    }
  }

  lemma SecondWindowBlank(chip: Chip, base: U32, len: nat, mem: seq<Byte>)
    requires chip.Valid() && chip.Holds(mem) && InUserArea(chip, base, len) && !SeesEnd(chip, base, len)
    requires chip.PageOf(base) < base && len > chip.PageSize()
    requires forall i :: 0 <= i < |mem| && FLASH_BASE + i > chip.PageOf(base) + chip.PageSize() ==> mem[i] == 0xFF
    ensures EraseIfDirty(chip, mem, base + chip.PageSize()) == mem
  {
    SecondPageInside(chip, base, len);
    hide Chip.PageOf, ErasePage;
    assert WindowErased(chip, mem, base + chip.PageSize());
  }

  /** The page after the second is inside the flash, or the second is the last. */
  lemma SecondPageInside(chip: Chip, base: U32, len: nat)
    requires chip.Valid() && InUserArea(chip, base, len) && len > chip.PageSize()
    ensures var third := chip.PageOf(base) + 2 * chip.PageSize();
            third == chip.End() || third + chip.PageSize() <= chip.End()
  {
    PageStartAligned(chip, base);
    FlashBoundsAligned(chip);
    hide Chip.PageOf;
    NextPage(chip, chip.PageOf(base));
    NextPage(chip, chip.PageOf(base) + chip.PageSize());
    var second := chip.PageOf(base) + chip.PageSize();
    AlignedApart(chip, second, chip.End());
    if second + chip.PageSize() < chip.End() {
      AlignedApart(chip, second + chip.PageSize(), chip.End());
    }
  }

  /** Programming cannot set a cell that the erase loop left cleared. */
  lemma SurvivorMisses(chip: Chip, mem: seq<Byte>, base: U32, data: seq<Byte>, i: nat)
    requires chip.Valid() && chip.Holds(mem) && InUserArea(chip, base, |data|)
    requires i < |EvenPart(data)| && data[i] != 0
    requires EraseFrom(chip, mem, base, base + |data|)[base - FLASH_BASE + i] == 0
    ensures !EvenArrives(chip, mem, base, data)
  {
    hide Chip.PageOf;
    BlockWriteInside(chip, mem, base, data);
    ProgramAt(EraseFrom(chip, mem, base, base + |data|), base, EvenPart(data), base - FLASH_BASE + i);
    assert BlockWrite(chip, mem, base, data)[base - FLASH_BASE + i] != data[i];
  }

  /** From an unaligned start into a second page, the first cell of that page can survive. */
  lemma UnalignedWriteFails(chip: Chip, base: U32, len: nat) returns (mem: seq<Byte>, data: seq<Byte>)
    requires chip.Valid() && InUserArea(chip, base, len) && !SeesEnd(chip, base, len)
    requires chip.PageOf(base) < base
    requires base + 2 * (len / 2) > chip.PageOf(base) + chip.PageSize()
    ensures chip.Holds(mem) && |data| == len && !EvenArrives(chip, mem, base, data)
  {
    hide Chip.PageOf;
    var i: nat := chip.PageOf(base) + chip.PageSize() - base;
    mem := BlankBut(chip, base + i - FLASH_BASE);
    data := seq(len, _ => 0xFF);
    SecondPageSurvives(chip, base, len);
    SurvivorMisses(chip, mem, base, data, i);
  }

  lemma SeesEndStores(chip: Chip, mem: seq<Byte>, base: U32, data: seq<Byte>)
    requires chip.Valid() && chip.Holds(mem) && InUserArea(chip, base, |data|)
    requires chip.PageOf(base) < base && SeesEnd(chip, base, |data|)
    ensures EvenArrives(chip, mem, base, data)
  {
    hide Chip.PageOf, SeesEnd, BlockWrite, EraseFrom;
    BlockWriteInside(chip, mem, base, data);
    forall i: nat | i < |EvenPart(data)|
      ensures BlockWrite(chip, mem, base, data)[base - FLASH_BASE + i] == data[i]
    {
      SeesEndErases(chip, mem, base, |data|, i);
      ProgramAt(EraseFrom(chip, mem, base, base + |data|), base, EvenPart(data), base - FLASH_BASE + i);
      AndErased(data[i]);
    }
  }

  /** Where a write starts or ends so that every page it meets is tested as a whole. */
  predicate Tested(chip: Chip, base: U32, len: nat, stored: nat) {
    || Aligned(chip, base)
    || base + stored <= chip.PageOf(base) + chip.PageSize()
    || SeesEnd(chip, base, len)
  }

  lemma TestedStores(chip: Chip, mem: seq<Byte>, base: U32, data: seq<Byte>)
    requires chip.Valid() && chip.Holds(mem) && InUserArea(chip, base, |data|)
    requires Tested(chip, base, |data|, |EvenPart(data)|)
    ensures EvenArrives(chip, mem, base, data)
  {
    hide Chip.PageOf, SeesEnd;
    if Aligned(chip, base) {
      forall i: nat | i < |EvenPart(data)|
        ensures BlockWrite(chip, mem, base, data)[base - FLASH_BASE + i] == data[i]
      {
        BlockWriteStores(chip, mem, base, data, i);
      }
    } else if SeesEnd(chip, base, |data|) {
      SeesEndStores(chip, mem, base, data);
    } else if data != [] {
      OnePageWriteStores(chip, mem, base, data);
    }
  }

  /** An accepted block write stores the even part of its payload for every previous content of the flash
      exactly when it starts on a page boundary, stays inside one page, or sees the end. */
  lemma EvenFaithfulExactly(chip: Chip, base: U32, len: nat)
    requires chip.Valid() && InUserArea(chip, base, len)
    ensures EvenFaithful(chip, base, len) <==> Tested(chip, base, len, 2 * (len / 2))
  {
    hide Chip.PageOf, EvenArrives, SeesEnd;
    if Tested(chip, base, len, 2 * (len / 2)) {
      forall mem: seq<Byte>, data: seq<Byte> | chip.Holds(mem) && |data| == len
        ensures EvenArrives(chip, mem, base, data)
      {
        TestedStores(chip, mem, base, data);
      }
    } else {
      var mem, data := UnalignedWriteFails(chip, base, len);
    }
  }

  /** Every byte of the payload arrives. */
  ghost predicate Arrives(chip: Chip, mem: seq<Byte>, base: U32, data: seq<Byte>)
    requires chip.Holds(mem) && InUserArea(chip, base, |data|)
  {
    forall i: nat :: i < |data| ==> BlockWrite(chip, mem, base, data)[base - FLASH_BASE + i] == data[i]
  }

  ghost predicate Faithful(chip: Chip, base: U32, len: nat)
    requires chip.Valid() && InUserArea(chip, base, len)
  {
    forall mem: seq<Byte>, data: seq<Byte> | chip.Holds(mem) && |data| == len :: Arrives(chip, mem, base, data)
  }

  /** Erasing leaves a blank cell blank. */
  lemma {:induction false} BlankCellStays(chip: Chip, mem: seq<Byte>, page: int, end: int, i: nat)
    requires chip.Holds(mem) && i < |mem| && mem[i] == 0xFF
    ensures EraseFrom(chip, mem, page, end)[i] == 0xFF
    decreases end - page
  {
    if page < end {
      EraseAt(chip, mem, page, i);
      BlankCellStays(chip, EraseIfDirty(chip, mem, page), page + chip.PageSize(), end, i);
    }
  }

  /** The odd last byte does not arrive: on a blank flash its cell stays blank. */
  lemma OddByteMisses(chip: Chip, base: U32, len: nat) returns (mem: seq<Byte>, data: seq<Byte>)
    requires chip.Valid() && InUserArea(chip, base, len) && len % 2 == 1
    ensures chip.Holds(mem) && |data| == len && !Arrives(chip, mem, base, data)
  {
    hide Chip.PageOf;
    var i: nat := base - FLASH_BASE + len - 1;
    mem := BlankBut(chip, chip.Size());
    data := seq(len, _ => 0);
    BlockWriteInside(chip, mem, base, data);
    BlankCellStays(chip, mem, base, base + len, i);
    ProgramAt(EraseFrom(chip, mem, base, base + len), base, EvenPart(data), i);
    assert BlockWrite(chip, mem, base, data)[base - FLASH_BASE + (len - 1)] != data[len - 1];
  }

  lemma EvenIsWhole(chip: Chip, mem: seq<Byte>, base: U32, data: seq<Byte>)
    requires chip.Holds(mem) && InUserArea(chip, base, |data|) && |data| % 2 == 0
    ensures Arrives(chip, mem, base, data) <==> EvenArrives(chip, mem, base, data)
  {
    assert |EvenPart(data)| == |data|;
    hide BlockWrite, EvenPart;
  }

  /** An accepted block write stores its whole payload for every previous content of the flash exactly when
      the length is even and the write starts on a page boundary, stays inside one page, or sees the end. */
  lemma FaithfulExactly(chip: Chip, base: U32, len: nat)
    requires chip.Valid() && InUserArea(chip, base, len)
    ensures Faithful(chip, base, len) <==> len % 2 == 0 && Tested(chip, base, len, len)
  {
    hide Tested, Arrives, EvenArrives;
    if len % 2 == 1 {
      var mem, data := OddByteMisses(chip, base, len);
    } else {
      forall mem: seq<Byte>, data: seq<Byte> | chip.Holds(mem) && |data| == len
        ensures Arrives(chip, mem, base, data) <==> EvenArrives(chip, mem, base, data)
      {
        EvenIsWhole(chip, mem, base, data);
      }
      EvenFaithfulExactly(chip, base, len);
    }
  }
}
