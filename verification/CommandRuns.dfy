/** Laws of whole lists of executed commands: the bootloader survives, blocks are independent of one
    another, and the one-time wipe makes the result independent of what the user area held. */
module CommandRuns {
  import opened Words
  import opened Flash
  import opened Commands

  // ---- Nothing below the user area changes ---------------------------------------------------

  lemma WipeKeepsBoot(chip: Chip, t: Target, i: nat)
    requires chip.Valid() && chip.Holds(t.mem) && i < BOOT_SIZE
    ensures Wipe(chip, t).mem[i] == t.mem[i]
  {
    if USER_START < chip.End() {
      assert Aligned(chip, USER_START);
      EraseFromFrame(chip, t.mem, USER_START, chip.End(), i);
    }
  }

  /** Page rounding of an unaligned address never reaches below the aligned start of the user area. */
  lemma PageAboveStart(chip: Chip, a: int)
    requires USER_START <= a
    ensures USER_START <= chip.PageOf(a)
  {
    PageMonotone(chip, USER_START, a);
    assert Aligned(chip, USER_START);
  }

  /** One command, whatever its address, block number or length, and wrapping or not. */
  lemma ApplyKeepsBoot(chip: Chip, t: Target, c: Command, i: nat)
    requires chip.Valid() && chip.Holds(t.mem) && c.Valid() && i < BOOT_SIZE
    ensures Apply(chip, t, c).mem[i] == t.mem[i]
  {
    hide Chip.PageOf;
    if c.TouchesFlash() {
      WipeKeepsBoot(chip, t, i);
      var w := Wipe(chip, t);
      var len := if c.block == 0 then TRANSFER_SIZE else c.len;
      var base := if c.block == 0 then Le32(c.buf, 1) else BlockAddress(t.addr, c.block);
      AcceptsExactly(chip, base, len);
      PageAboveStart(chip, if USER_START <= base then base else USER_START);
      if Accepts(chip, base, len) {
        if c.block == 0 {
          EraseAt(chip, w.mem, base, i);
        } else if base + len < TWO_32 {
          BlockWriteFrame(chip, w.mem, base, c.Payload(), i);
        } else {
          WrappedBlockWrite(chip, w.mem, base, c.Payload());
        }
      }
    }
  }

  lemma {:induction false} ApplyAllKeepsBoot(chip: Chip, t: Target, cs: seq<Command>, i: nat)
    requires chip.Valid() && chip.Holds(t.mem) && i < BOOT_SIZE
    requires forall c :: c in cs ==> c.Valid()
    ensures ApplyAll(chip, t, cs).mem[i] == t.mem[i]
  {
    if cs != [] {
      var init := cs[..|cs| - 1];
      ApplyAllKeepsBoot(chip, t, init, i);
      ApplyKeepsBoot(chip, ApplyAll(chip, t, init), cs[|cs| - 1], i);
    }
  }

  // ---- The one-time wipe ---------------------------------------------------------------------

  function BlankUser(chip: Chip, mem: seq<Byte>): (r: seq<Byte>)
    requires chip.Valid() && chip.Holds(mem)
    ensures |r| == |mem|
  {
    seq(|mem|, i requires 0 <= i < |mem| => if i < BOOT_SIZE then mem[i] else 0xFF)
  }

  /** The wipe loop covers exactly the user area; skipping pages that are already blank shows nowhere. */
  lemma WipeBlanksUserArea(chip: Chip, mem: seq<Byte>)
    requires chip.Valid() && chip.Holds(mem)
    ensures EraseFrom(chip, mem, USER_START, chip.End()) == BlankUser(chip, mem)
  {
    hide Chip.PageOf;
    var r := EraseFrom(chip, mem, USER_START, chip.End());
    if USER_START < chip.End() {
      FlashBoundsAligned(chip);
      LastPage(chip, chip.End());
      forall i | 0 <= i < |mem|
        ensures r[i] == BlankUser(chip, mem)[i]
      {
        if i < BOOT_SIZE {
          EraseFromFrame(chip, mem, USER_START, chip.End(), i);
        } else {
          EraseFromAligned(chip, mem, USER_START, chip.End(), i);
        }
      }
    }
  }

  /** Two targets that an observer of the protected build must not tell apart: equal but for the user
      area, and equal there too once it has been wiped. */
  ghost predicate Alike(chip: Chip, t: Target, u: Target) {
    && chip.Holds(t.mem) && chip.Holds(u.mem)
    && t.addr == u.addr && t.wiped == u.wiped
    && (forall i :: 0 <= i < BOOT_SIZE && i < |t.mem| ==> t.mem[i] == u.mem[i])
    && (t.wiped ==> t.mem == u.mem)
  }

  /** One command keeps two such targets alike, and a flash command makes them equal. */
  lemma ApplyKeepsAlike(chip: Chip, t: Target, u: Target, c: Command)
    requires chip.Valid() && chip.safeWrite && c.Valid() && Alike(chip, t, u)
    ensures Alike(chip, Apply(chip, t, c), Apply(chip, u, c))
    ensures c.TouchesFlash() ==> Apply(chip, t, c).wiped
    ensures t.wiped ==> Apply(chip, t, c).wiped
  {
    if c.TouchesFlash() {
      WipeBlanksUserArea(chip, t.mem);
      WipeBlanksUserArea(chip, u.mem);
      assert Wipe(chip, t) == Wipe(chip, u) by {
        assert BlankUser(chip, t.mem) == BlankUser(chip, u.mem);
      }
      assert Apply(chip, t, c) == Apply(chip, u, c);
    }
  }

  // ---- Independent blocks --------------------------------------------------------------------

  predicate AllBlocks(cs: seq<Command>) {
    forall c :: c in cs ==> c.Valid() && c.block != 0
  }

  /** The flash as the first data block finds it. */
  function Prepared(chip: Chip, t: Target): (r: seq<Byte>)
    requires chip.Holds(t.mem)
    ensures |r| == |t.mem|
  {
    Wipe(chip, t).mem
  }

  lemma MultipleAligned(chip: Chip, a: int, k: int)
    requires a == (if chip.gd then 2048 * k else 1024 * k)
    ensures Aligned(chip, a)
  {
    if chip.gd { assert a / 2048 == k; } else { assert a / 1024 == k; }
  }

  lemma BlockAddressAligned(chip: Chip, addr: U32, block: U16)
    requires Aligned(chip, addr)
    ensures Aligned(chip, BlockAddress(addr, block))
  {
    var x := addr + (block - 2) * TRANSFER_SIZE;
    var q := x / TWO_32;
    assert BlockAddress(addr, block) == x - TWO_32 * q;
    if chip.gd {
      MultipleAligned(chip, BlockAddress(addr, block), addr / 2048 + 2 * (block - 2) - 0x20_0000 * q);
    } else {
      MultipleAligned(chip, BlockAddress(addr, block), addr / 1024 + 4 * (block - 2) - 0x40_0000 * q);
    }
    hide Chip.PageOf, BlockAddress;
  }

  /** Cells of an accepted block's 4096-byte window. */
  predicate InWindow(chip: Chip, addr: U32, c: Command, i: int) {
    var base := BlockAddress(addr, c.block);
    InUserArea(chip, base, c.len) && base <= FLASH_BASE + i < base + TRANSFER_SIZE
  }

  lemma BlockKeepsPointer(chip: Chip, t: Target, c: Command)
    requires chip.Holds(t.mem) && c.Valid() && c.block != 0
    ensures Apply(chip, t, c).addr == t.addr
    ensures chip.safeWrite ==> Apply(chip, t, c).wiped
    ensures !chip.safeWrite ==> Apply(chip, t, c).wiped == t.wiped
  {
  }

  lemma WindowEndAligned(chip: Chip, base: int)
    requires Aligned(chip, base)
    ensures Aligned(chip, base + TRANSFER_SIZE)
  {
  }

  /** The pages an aligned transfer meets lie inside its window, for either page size. */
  lemma WindowPages(chip: Chip, base: int, len: nat)
    requires Aligned(chip, base) && 0 < len <= TRANSFER_SIZE
    ensures chip.PageOf(base + len - 1) + chip.PageSize() <= base + TRANSFER_SIZE
  {
    hide Chip.PageOf;
    WindowEndAligned(chip, base);
    PageMonotone(chip, base + len - 1, base + TRANSFER_SIZE - 1);
    LastPage(chip, base + TRANSFER_SIZE);
  }

  /** Cells of the pages an accepted block meets. */
  predicate InPages(chip: Chip, addr: U32, c: Command, i: int) {
    var base := BlockAddress(addr, c.block);
    && InUserArea(chip, base, c.len)
    && chip.PageOf(base) <= FLASH_BASE + i < chip.PageOf(base + c.len - 1) + chip.PageSize()
  }

  /** From an aligned pointer, a block never leaves its own 4096-byte window, short blocks included. */
  lemma PagesInWindow(chip: Chip, addr: U32, c: Command, i: int)
    requires c.Valid() && Aligned(chip, addr) && InPages(chip, addr, c, i)
    ensures InWindow(chip, addr, c, i)
  {
    hide Chip.PageOf;
    BlockAddressAligned(chip, addr, c.block);
    WindowPages(chip, BlockAddress(addr, c.block), c.len);
  }

  /** A block, accepted or not, from any pointer, changes only the pages it meets. */
  lemma BlockStaysInPages(chip: Chip, t: Target, c: Command, i: nat)
    requires chip.Valid() && chip.Holds(t.mem) && c.Valid() && c.block != 0
    requires i < |t.mem| && !InPages(chip, t.addr, c, i)
    ensures Apply(chip, t, c).mem[i] == Prepared(chip, t)[i]
  {
    hide Chip.PageOf;
    var w := Wipe(chip, t);
    var base := BlockAddress(t.addr, c.block);
    AcceptsExactly(chip, base, c.len);
    if base + c.len >= TWO_32 {
      WrappedBlockWrite(chip, w.mem, base, c.Payload());
    } else if Accepts(chip, base, c.len) {
      BlockWriteFrame(chip, w.mem, base, c.Payload(), i);
    }
  }

  lemma {:induction false} BlocksState(chip: Chip, t: Target, cs: seq<Command>)
    requires chip.Holds(t.mem) && AllBlocks(cs)
    ensures ApplyAll(chip, t, cs).addr == t.addr
    ensures cs != [] && chip.safeWrite ==> ApplyAll(chip, t, cs).wiped
  {
    if cs != [] {
      var init := cs[..|cs| - 1];
      BlocksState(chip, t, init);
      BlockKeepsPointer(chip, ApplyAll(chip, t, init), cs[|cs| - 1]);
    }
  }

  /** A cell in no page that a block of the list meets keeps what the first block found there. */
  lemma {:induction false} BlocksFrame(chip: Chip, t: Target, cs: seq<Command>, i: nat)
    requires chip.Valid() && chip.Holds(t.mem) && AllBlocks(cs) && cs != []
    requires i < |t.mem| && forall c :: c in cs ==> !InPages(chip, t.addr, c, i)
    ensures ApplyAll(chip, t, cs).mem[i] == Prepared(chip, t)[i]
  {
    var init := cs[..|cs| - 1];
    if init != [] {
      BlocksFrame(chip, t, init, i);
    }
    BlocksState(chip, t, init);
    BlockStaysInPages(chip, ApplyAll(chip, t, init), cs[|cs| - 1], i);
  }

  lemma PreparedKept(chip: Chip, t: Target)
    requires chip.Holds(t.mem) && (chip.safeWrite ==> t.wiped)
    ensures Prepared(chip, t) == t.mem
  {
  }

  lemma WindowsDisjoint(chip: Chip, addr: U32, c: Command, d: Command, i: int)
    requires chip.Valid() && c.block != d.block && InWindow(chip, addr, c, i)
    ensures !InWindow(chip, addr, d, i)
  {
  }

  /** One accepted block from an aligned pointer. */
  lemma BlockStores(chip: Chip, t: Target, c: Command, i: nat)
    requires chip.Valid() && chip.Holds(t.mem) && c.Valid() && c.block != 0 && Aligned(chip, t.addr)
    requires InUserArea(chip, BlockAddress(t.addr, c.block), c.len) && i < |EvenPart(c.Payload())|
    ensures BlockAddress(t.addr, c.block) - FLASH_BASE + i < |t.mem|
    ensures Apply(chip, t, c).mem[BlockAddress(t.addr, c.block) - FLASH_BASE + i] == c.Payload()[i]
  {
    hide Chip.PageOf, BlockWrite;
    var base := BlockAddress(t.addr, c.block);
    BlockAddressAligned(chip, t.addr, c.block);
    AcceptsExactly(chip, base, c.len);
    BlockWriteStores(chip, Wipe(chip, t).mem, base, c.Payload(), i);
  }

  /** In any list of data blocks, in any order and with repeats, the last accepted write of a block
      number is what its window holds at the end. */
  lemma {:induction false} LastBlockWins(chip: Chip, t: Target, cs: seq<Command>, j: nat, i: nat)
    requires chip.Valid() && chip.Holds(t.mem) && AllBlocks(cs) && Aligned(chip, t.addr)
    requires j < |cs| && InUserArea(chip, BlockAddress(t.addr, cs[j].block), cs[j].len)
    requires forall k :: j < k < |cs| ==>
               cs[k].block != cs[j].block || !InUserArea(chip, BlockAddress(t.addr, cs[k].block), cs[k].len)
    requires i < |EvenPart(cs[j].Payload())|
    ensures BlockAddress(t.addr, cs[j].block) - FLASH_BASE + i < |t.mem|
    ensures ApplyAll(chip, t, cs).mem[BlockAddress(t.addr, cs[j].block) - FLASH_BASE + i]
            == cs[j].Payload()[i]
  {
    hide Chip.PageOf, Apply;
    var init, c := cs[..|cs| - 1], cs[|cs| - 1];
    var t' := ApplyAll(chip, t, init);
    var base := BlockAddress(t.addr, cs[j].block);
    BlocksState(chip, t, init);
    if j == |cs| - 1 {
      BlockStores(chip, t', c, i);
    } else {
      LastBlockWins(chip, t, init, j, i);
      hide Wipe;
      if c.block != cs[j].block {
        WindowsDisjoint(chip, t.addr, cs[j], c, base - FLASH_BASE + i);
      }
      PreparedKept(chip, t');
      if InPages(chip, t.addr, c, base - FLASH_BASE + i) {
        PagesInWindow(chip, t.addr, c, base - FLASH_BASE + i);
      }
      BlockStaysInPages(chip, t', c, base - FLASH_BASE + i);
    }
  }
}
