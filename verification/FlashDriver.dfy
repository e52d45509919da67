/** The flash controller and the routines that drive it. The hardware half gives the registers their
    real effect: a locked controller ignores everything but the key sequence, an erase starts only with
    PER set and PG clear, a store programs only with PG set and PER clear. */
module FlashDriver {
  import opened Words
  import opened Flash

  const KEY1: U32 := 0x4567_0123
  const KEY2: U32 := 0xCDEF_89AB

  /** The control register bits in use. */
  datatype Control = Control(lock: bool, strt: bool, per: bool, pg: bool)

  lemma AllOnes(word: seq<Byte>)
    requires |word| == 4
    ensures Le32(word, 0) == 0xFFFF_FFFF <==> word[0] == word[1] == word[2] == word[3] == 0xFF
  {
  }

  /** Two bursts that follow one another are one burst. */
  lemma ProgramAppend(mem: seq<Byte>, a: U32, data: seq<Byte>, n: nat, m: nat)
    requires n <= m <= |data| <= TRANSFER_SIZE
    ensures Program(Program(mem, a, data[..n]), Wrap(a + n), data[n..m]) == Program(mem, a, data[..m])
  {
    hide And;
    var once := Program(mem, a, data[..n]);
    var twice := Program(once, Wrap(a + n), data[n..m]);
    forall i | 0 <= i < |mem|
      ensures twice[i] == Program(mem, a, data[..m])[i]
    {
      OffsetAppend(FLASH_BASE + i, a, n);
    }
  }

  lemma OffsetAppend(x: int, a: U32, n: nat)
    requires n <= TRANSFER_SIZE
    ensures Wrap(x - a) >= n ==> Wrap(x - Wrap(a + n)) == Wrap(x - a) - n
    ensures Wrap(x - a) < n ==> Wrap(x - Wrap(a + n)) >= TWO_32 - n
  {
  }

  class FlashController {
    const chip: Chip
    const cells: array<Byte>
    var control: Control
    var keysSeen: nat
    var jammed: bool
    var addressRegister: U32
    var wiped: bool

    ghost predicate Wired() {
      chip.Valid() && cells.Length == chip.Size()
    }

    /** Locked and at rest: what every caller must find and leave. */
    ghost predicate Closed()
      reads this
    {
      Wired() && !jammed && keysSeen == 0 && control == Control(true, false, false, false)
    }

    /** Unlocked and at rest. */
    ghost predicate Open()
      reads this
    {
      Wired() && !jammed && keysSeen == 0 && control == Control(false, false, false, false)
    }

    /** Unlocked with programming enabled. */
    ghost predicate Programming()
      reads this
    {
      Wired() && !jammed && keysSeen == 0 && control == Control(false, false, false, true)
    }

    constructor (chip: Chip, cells: array<Byte>)
      requires chip.Valid() && cells.Length == chip.Size()
      ensures Closed() && !wiped && this.chip == chip && this.cells == cells
    {
      this.chip, this.cells := chip, cells;
      control, keysSeen, jammed := Control(true, false, false, false), 0, false;
      addressRegister, wiped := 0, false;
    }

    // ---- Hardware ----------------------------------------------------------------------------

    /** A write to the key register: the two keys in order open a locked controller; anything else,
        a key for an open controller included, jams it until the next system reset. */
    method WriteKey(k: U32)
      modifies this`control, this`keysSeen, this`jammed
      ensures !old(jammed) && old(control.lock) && old(keysSeen) == 0 && k == 0x4567_0123
              ==> !jammed && keysSeen == 1 && control == old(control)
      ensures !old(jammed) && old(control.lock) && old(keysSeen) == 1 && k == 0xCDEF_89AB
              ==> !jammed && keysSeen == 0 && control == old(control).(lock := false)
      ensures !old(control.lock) ==> jammed && control.lock
    {
      if control.lock && !jammed && keysSeen == 0 && k == KEY1 {
        keysSeen := 1;
      } else if control.lock && !jammed && keysSeen == 1 && k == KEY2 {
        keysSeen, control := 0, control.(lock := false);
      } else {
        jammed, control := true, control.(lock := true);
      }
    }

    /** A write to the control register. STRT clears itself when the operation is done. */
    method WriteControl(c: Control)
      requires Wired()
      modifies this`control, cells
      ensures old(control.lock) ==> control == old(control) && cells[..] == old(cells[..])
      ensures !old(control.lock) ==> control == c.(strt := false)
      ensures !old(control.lock) ==>
                cells[..] == if c.strt && c.per && !c.pg
                             then ErasePage(chip, old(cells[..]), addressRegister) else old(cells[..])
    {
      if !control.lock {
        control := c.(strt := false);
        if c.strt && c.per && !c.pg {
          var page, size := chip.PageOf(addressRegister), chip.PageSize();
          forall i | 0 <= i < cells.Length && page <= FLASH_BASE + i < page + size {
            cells[i] := 0xFF;
          }
          assert cells[..] == ErasePage(chip, old(cells[..]), addressRegister);
        }
      }
    }

    /** A bus store of consecutive bytes to the flash. */
    method Store(a: U32, data: seq<Byte>)
      requires Wired()
      modifies cells
      ensures cells[..] == if !control.lock && control.pg && !control.per
                           then Program(old(cells[..]), a, data) else old(cells[..])
    {
      if !control.lock && control.pg && !control.per {
        forall i | 0 <= i < cells.Length && Wrap(FLASH_BASE + i - a) < |data| {
          cells[i] := And(cells[i], data[Wrap(FLASH_BASE + i - a)]);
        }
        assert cells[..] == Program(old(cells[..]), a, data);
      }
    }

    // ---- Lock and erase ----------------------------------------------------------------------

    method Unlock()
      requires Closed()
      modifies this`control, this`keysSeen, this`jammed
      ensures Open()
    {
      WriteKey(KEY1);
      WriteKey(KEY2);
    }

    method Lock()
      requires Open()
      modifies this`control, cells
      ensures Closed() && cells[..] == old(cells[..])
    {
      WriteControl(control.(lock := true));
    }

    method EraseAt(a: U32)
      requires Open()
      modifies this`control, this`addressRegister, cells
      ensures Open() && cells[..] == ErasePage(chip, old(cells[..]), a)
    {
      WriteControl(control.(per := true));
      addressRegister := a;
      WriteControl(control.(strt := true));
      WriteControl(control.(per := false));
    }

    /** The test reads one page length in words from a, aligned or not. */
    method PageIsErased(a: U32) returns (erased: bool)
      requires Wired()
      ensures erased == WindowErased(chip, cells[..], a)
    {
      var i := 0;
      while i < chip.PageSize() / 4
        invariant 0 <= i <= chip.PageSize() / 4
        invariant forall k :: 0 <= k < 4 * i ==> ReadAt(chip, cells[..], a, k) == 0xFF
      {
        var word := [ReadAt(chip, cells[..], a, 4 * i), ReadAt(chip, cells[..], a, 4 * i + 1),
                     ReadAt(chip, cells[..], a, 4 * i + 2), ReadAt(chip, cells[..], a, 4 * i + 3)];
        AllOnes(word);
        if Le32(word, 0) != 0xFFFF_FFFF {
          return false;
        }
        i := i + 1;
      }
      return true;
    }

    /** The conditional erase every caller uses. */
    method EraseDirty(a: U32)
      requires Open()
      modifies this`control, this`addressRegister, cells
      ensures Open() && cells[..] == EraseIfDirty(chip, old(cells[..]), a)
    {
      var erased := PageIsErased(a);
      if !erased {
        EraseAt(a);
      }
    }

    /** The one-time wipe. */
    method CheckDoErase()
      requires Open()
      modifies this`control, this`addressRegister, this`wiped, cells
      ensures Open() && wiped
      ensures cells[..] == if old(wiped) then old(cells[..])
                           else EraseFrom(chip, old(cells[..]), USER_START, chip.End())
    {
      if wiped {
        return;
      }
      hide EraseIfDirty, Chip.PageOf;
      var a := USER_START;
      while a < chip.End()
        invariant Open() && USER_START <= a
        invariant EraseFrom(chip, cells[..], a, chip.End())
                  == EraseFrom(chip, old(cells[..]), USER_START, chip.End())
        decreases chip.End() - a
      {
        EraseDirty(a);
        a := a + chip.PageSize();
      }
      wiped := true;
    }

    // ---- Programming -------------------------------------------------------------------------

    method ProgramBuffer16(a: U32, data: array<Byte>, halfwords: nat)
      requires Programming() && data != cells && 2 * halfwords <= data.Length <= TRANSFER_SIZE
      modifies cells
      ensures cells[..] == Program(old(cells[..]), a, data[..2 * halfwords])
    {
      var i := 0;
      ghost var d, was := data[..], cells[..];
      assert was == Program(was, a, d[..0]);
      hide Program, Wrap;
      while i < halfwords
        invariant 0 <= i <= halfwords
        invariant data[..] == d && cells[..] == Program(was, a, d[..2 * i])
      {
        ProgramAppend(was, a, d, 2 * i, 2 * i + 2);
        Store(Wrap(a + 2 * i), data[2 * i..2 * i + 2]);
        i := i + 1;
      }
    }

    method ProgramBuffer32(a: U32, data: array<Byte>, words: nat)
      requires Programming() && data != cells && 4 * words <= data.Length <= TRANSFER_SIZE
      modifies cells
      ensures cells[..] == Program(old(cells[..]), a, data[..4 * words])
    {
      var i := 0;
      ghost var d, was := data[..], cells[..];
      assert was == Program(was, a, d[..0]);
      hide Program, Wrap;
      while i < words
        invariant 0 <= i <= words
        invariant data[..] == d && cells[..] == Program(was, a, d[..4 * i])
      {
        ProgramAppend(was, a, d, 4 * i, 4 * i + 4);
        Store(Wrap(a + 4 * i), data[4 * i..4 * i + 4]);
        i := i + 1;
      }
    }

    method ProgramBuffer(a: U32, data: array<Byte>, len: nat)
      requires Open() && data != cells && len <= data.Length <= TRANSFER_SIZE
      modifies this`control, cells
      ensures Open() && cells[..] == Program(old(cells[..]), a, EvenPart(data[..len]))
    {
      WriteControl(control.(pg := true));
      ProgramBuffer16(a, data, len / 2);
      assert data[..2 * (len / 2)] == EvenPart(data[..len]);
      WriteControl(control.(pg := false));
    }

    /** The 32-bit path leaves the same flash as the 16-bit path, which it falls back to when length or
        address is not a multiple of four. */
    method ProgramBufferGd32(a: U32, data: array<Byte>, len: nat)
      requires Open() && data != cells && len <= data.Length <= TRANSFER_SIZE
      modifies this`control, cells
      ensures Open() && cells[..] == Program(old(cells[..]), a, EvenPart(data[..len]))
    {
      if len % 4 != 0 || a % 4 != 0 {
        ProgramBuffer(a, data, len);
        return;
      }
      WriteControl(control.(pg := true));
      ProgramBuffer32(a, data, len / 4);
      assert data[..4 * (len / 4)] == EvenPart(data[..len]);
      WriteControl(control.(pg := false));
    }
  }
}
