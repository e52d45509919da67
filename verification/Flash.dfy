/** The flash array as a value: what one erase, one program burst and the loops built from them do to
    its cells. Addresses are 32-bit; cell i lives at FLASH_BASE + i. */
module Flash {
  import opened Words

  const FLASH_BASE: int := 0x0800_0000
  const BOOT_SIZE: int := 8 * 1024
  const USER_START: int := FLASH_BASE + BOOT_SIZE
  const TRANSFER_SIZE: int := 4096

  /** What the build and the chip fix: vendor (which selects the page size and the 32-bit programming
      path), flash size in kB, the two build switches, the five USB strings, and the byte a read outside
      the flash array returns. */
  datatype Chip = Chip(
    gd: bool, flashKb: nat, safeWrite: bool, upload: bool,
    strings: seq<seq<Byte>>, elsewhere: Byte)
  {
    function PageSize(): nat {
      if gd then 2048 else 1024
    }

    function Size(): nat {
      1024 * flashKb
    }

    function End(): int {
      FLASH_BASE + Size()
    }

    /** First address of the page that contains a. */
    function PageOf(a: int): (p: int)
      ensures p <= a < p + PageSize()
    {
      if gd then 2048 * (a / 2048) else 1024 * (a / 1024)
    }

    /** The flash size is a 16-bit kB count, a whole number of pages, and covers the bootloader. */
    predicate Valid() {
      && 8 <= flashKb < 0x1_0000
      && (gd ==> flashKb % 2 == 0)
      && |strings| == 5
      && forall k :: 0 <= k < 5 ==> |strings[k]| <= 126
    }

    /** A memory image of this chip's flash. */
    predicate Holds(mem: seq<Byte>) {
      |mem| == Size()
    }
  }

  /** The byte the CPU reads at a 32-bit address. */
  function Read(chip: Chip, mem: seq<Byte>, a: int): Byte
    requires chip.Holds(mem)
  {
    if FLASH_BASE <= a < chip.End() then mem[a - FLASH_BASE] else chip.elsewhere
  }

  /** Hardware: erasing sets the whole page that contains a. */
  function ErasePage(chip: Chip, mem: seq<Byte>, a: int): (r: seq<Byte>)
    ensures |r| == |mem|
  {
    seq(|mem|, i requires 0 <= i < |mem| =>
      if chip.PageOf(a) <= FLASH_BASE + i < chip.PageOf(a) + chip.PageSize() then 0xFF else mem[i])
  }

  /** Hardware: programming can only clear bits; addresses wrap at 2^32. */
  function Program(mem: seq<Byte>, a: U32, data: seq<Byte>): (r: seq<Byte>)
    ensures |r| == |mem|
  {
    seq(|mem|, i requires 0 <= i < |mem| =>
      var j := Wrap(FLASH_BASE + i - a);
      if j < |data| then And(mem[i], data[j]) else mem[i])
  }

  /** The page-sized window that starts at a (aligned or not) reads as all ones. */
  predicate WindowErased(chip: Chip, mem: seq<Byte>, a: int)
    requires chip.Holds(mem)
  {
    forall i :: 0 <= i < chip.PageSize() ==> ReadAt(chip, mem, a, i) == 0xFF
  }

  function ReadAt(chip: Chip, mem: seq<Byte>, a: int, i: int): Byte
    requires chip.Holds(mem)
  {
    Read(chip, mem, Wrap(a + i))
  }

  /** `if (!_flash_page_is_erased(a)) _flash_erase_page(a)` */
  function EraseIfDirty(chip: Chip, mem: seq<Byte>, a: int): (r: seq<Byte>)
    requires chip.Holds(mem)
    ensures |r| == |mem|
  {
    if WindowErased(chip, mem, a) then mem else ErasePage(chip, mem, a)
  }

  /** The erase loop over `page, page + PageSize, ...` below `end`. */
  function EraseFrom(chip: Chip, mem: seq<Byte>, page: int, end: int): (r: seq<Byte>)
    requires chip.Holds(mem)
    ensures |r| == |mem|
    decreases end - page
  {
    if page >= end then mem
    else EraseFrom(chip, EraseIfDirty(chip, mem, page), page + chip.PageSize(), end)
  }

  /** Halfword programming drops an odd last byte. */
  function EvenPart(data: seq<Byte>): (r: seq<Byte>)
    ensures |data| - 1 <= |r| <= |data| && |r| % 2 == 0
    ensures forall i :: 0 <= i < |r| ==> r[i] == data[i]
  {
    data[..2 * (|data| / 2)]
  }

  /** One accepted block write: erase every window in the range, then program. */
  function BlockWrite(chip: Chip, mem: seq<Byte>, base: U32, data: seq<Byte>): (r: seq<Byte>)
    requires chip.Holds(mem)
    ensures |r| == |mem|
  {
    Program(EraseFrom(chip, mem, base, Wrap(base + |data|)), base, EvenPart(data))
  }

  predicate Aligned(chip: Chip, a: int) {
    chip.PageOf(a) == a
  }

  lemma PageMonotone(chip: Chip, a: int, b: int)
    requires a <= b
    ensures chip.PageOf(a) <= chip.PageOf(b)
  {
    if chip.gd { assert a / 2048 <= b / 2048; } else { assert a / 1024 <= b / 1024; }
  }

  lemma NextPage(chip: Chip, a: int)
    ensures chip.PageOf(a + chip.PageSize()) == chip.PageOf(a) + chip.PageSize()
  {
    if chip.gd {
      assert (a + 2048) / 2048 == a / 2048 + 1;
    } else {
      assert (a + 1024) / 1024 == a / 1024 + 1;
    }
  }

  lemma AlignedApart(chip: Chip, a: int, b: int)
    requires Aligned(chip, a) && Aligned(chip, b) && a < b
    ensures a + chip.PageSize() <= b
  {
  }

  lemma PageStartAligned(chip: Chip, a: int)
    ensures Aligned(chip, chip.PageOf(a))
  {
  }

  lemma LastPage(chip: Chip, end: int)
    requires Aligned(chip, end)
    ensures chip.PageOf(end - 1) == end - chip.PageSize()
  {
    PageStartAligned(chip, end - 1);
    AlignedApart(chip, chip.PageOf(end - 1), end);
    hide Chip.PageOf;
  }

  lemma FlashBoundsAligned(chip: Chip)
    requires chip.Valid()
    ensures Aligned(chip, FLASH_BASE) && Aligned(chip, USER_START) && Aligned(chip, chip.End())
  {
    if chip.gd { assert chip.flashKb == 2 * (chip.flashKb / 2); }
  }

  // ---- What these do to one cell -------------------------------------------------------------

  lemma EraseAt(chip: Chip, mem: seq<Byte>, a: int, i: nat)
    requires chip.Holds(mem) && i < |mem|
    ensures EraseIfDirty(chip, mem, a)[i] == mem[i] || EraseIfDirty(chip, mem, a)[i] == 0xFF
    ensures !(chip.PageOf(a) <= FLASH_BASE + i < chip.PageOf(a) + chip.PageSize())
            ==> EraseIfDirty(chip, mem, a)[i] == mem[i]
  {
    hide Chip.PageOf;
  }

  /** The aligned case: afterwards the whole page reads all ones. */
  lemma EraseAligned(chip: Chip, mem: seq<Byte>, a: int, i: nat)
    requires chip.Valid() && chip.Holds(mem)
    requires FLASH_BASE <= a < chip.End() && Aligned(chip, a)
    requires a <= FLASH_BASE + i < a + chip.PageSize()
    ensures i < |mem| && EraseIfDirty(chip, mem, a)[i] == 0xFF
  {
    hide Chip.PageOf;
    FlashBoundsAligned(chip);
    AlignedApart(chip, a, chip.End());
    if WindowErased(chip, mem, a) {
      var k := FLASH_BASE + i - a;
      assert ReadAt(chip, mem, a, k) == 0xFF;
    }
  }

  /** The loop never touches a page below the first or above the last one in range. */
  lemma {:induction false} EraseFromFrame(chip: Chip, mem: seq<Byte>, page: int, end: int, i: nat)
    requires chip.Holds(mem) && i < |mem| && page < end
    requires FLASH_BASE + i < chip.PageOf(page) || chip.PageOf(end - 1) + chip.PageSize() <= FLASH_BASE + i
    ensures EraseFrom(chip, mem, page, end)[i] == mem[i]
    decreases end - page
  {
    hide Chip.PageOf;
    EraseAt(chip, mem, page, i);
    var next := page + chip.PageSize();
    PageMonotone(chip, page, end - 1);
    NextPage(chip, page);
    if next < end {
      EraseFromFrame(chip, EraseIfDirty(chip, mem, page), next, end, i);
    }
  }

  /** From an aligned start inside the flash, every page in range ends up erased. */
  lemma {:induction false} EraseFromAligned(chip: Chip, mem: seq<Byte>, page: int, end: int, i: nat)
    requires chip.Valid() && chip.Holds(mem)
    requires FLASH_BASE <= page < end <= chip.End() && Aligned(chip, page)
    requires page <= FLASH_BASE + i < chip.PageOf(end - 1) + chip.PageSize()
    ensures i < |mem| && EraseFrom(chip, mem, page, end)[i] == 0xFF
    decreases end - page
  {
    hide Chip.PageOf;
    var next := page + chip.PageSize();
    var mem' := EraseIfDirty(chip, mem, page);
    NextPage(chip, page);
    if next < end {
      if next <= FLASH_BASE + i {
        EraseFromAligned(chip, mem', next, end, i);
      } else {
        EraseAligned(chip, mem, page, i);
        PageMonotone(chip, page, FLASH_BASE + i);
        EraseFromFrame(chip, mem', next, end, i);
      }
    } else {
      LastPage(chip, next);
      PageMonotone(chip, end - 1, next - 1);
      EraseAligned(chip, mem, page, i);
    }
  }
}
