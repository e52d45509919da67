/** Stage 1: the decision between the application and DFU mode, over the flash, the reboot marker and the
    force pin, and what it means for an image that a download has put there. */
module Stage1 {
  import opened Words
  import opened Flash
  import opened Commands
  import opened DfuRequests
  import opened Device
  import opened Download
  import opened Sessions
  import opened Crc

  const RAM_START: U32 := 0x2000_0000
  const APP_ADDRESS: U32 := 0x0800_2000
  const SIZE_LIMIT: int := 256 * 1024
  const NO_HASH_SIZE: U32 := 0x1234
  const NO_HASH_CHECKSUM: U32 := 0x5678

  /** 0xDEADBEEFCC00FFEE, as it lies in memory. */
  const MARKER: seq<Byte> := [0xEE, 0xFF, 0x00, 0xCC, 0xEF, 0xBE, 0xAD, 0xDE]

  /** Word k of the application area. */
  function AppWord(chip: Chip, mem: seq<Byte>, k: nat): U32
    requires chip.Holds(mem)
  {
    var a := APP_ADDRESS + 4 * k;
    Le32([Read(chip, mem, a), Read(chip, mem, a + 1), Read(chip, mem, a + 2), Read(chip, mem, a + 3)], 0)
  }

  function Nibble(x: int): bv4
    requires 0 <= x < 16
  {
    x as bv4
  }

  function JoinNibbles(hi: bv4, lo: bv4): bv8 {
    ((hi as bv8) << 4) | (lo as bv8)
  }

  function Octet(b: Byte): bv8 {
    JoinNibbles(Nibble(b / 16), Nibble(b % 16))
  }

  function Join(b0: bv8, b1: bv8, b2: bv8, b3: bv8): bv32 {
    (b0 as bv32) | ((b1 as bv32) << 8) | ((b2 as bv32) << 16) | ((b3 as bv32) << 24)
  }

  /** A word as the CRC unit sees it. */
  function Bits(w: U32): bv32 {
    var s := Bytes32(w);
    Join(Octet(s[0]), Octet(s[1]), Octet(s[2]), Octet(s[3]))
  }

  /** n words of the application area, from word k on, as the CRC unit is fed them. */
  function AppWords(chip: Chip, mem: seq<Byte>, k: nat, n: nat): (ws: seq<bv32>)
    requires chip.Holds(mem)
    ensures |ws| == n
  {
    seq(n, i requires 0 <= i < n => Bits(AppWord(chip, mem, k + i)))
  }

  /** Words that the checksum covers: they follow the four header words. */
  function CoveredCount(chip: Chip, mem: seq<Byte>): nat
    requires chip.Holds(mem)
  {
    AppWord(chip, mem, 2) / 4
  }

  predicate Unhashed(chip: Chip, mem: seq<Byte>)
    requires chip.Holds(mem)
  {
    AppWord(chip, mem, 2) == NO_HASH_SIZE && AppWord(chip, mem, 3) == NO_HASH_CHECKSUM
  }

  predicate ChecksumOk(chip: Chip, poly: bv32, mem: seq<Byte>)
    requires chip.Holds(mem)
  {
    Fold(poly, INITIAL, AppWords(chip, mem, 4, CoveredCount(chip, mem))) == Bits(AppWord(chip, mem, 3))
  }

  /** When the application is started: nobody asked for DFU, the stack pointer lies in the first
      megabyte of RAM, the size is sane, and the image is unhashed or its checksum is right. */
  predicate BootsApp(chip: Chip, poly: bv32, mem: seq<Byte>, marked: bool, pinHigh: bool)
    requires chip.Holds(mem)
  {
    && !marked && pinHigh
    && RAM_START <= AppWord(chip, mem, 0) < RAM_START + 0x10_0000
    && AppWord(chip, mem, 2) < SIZE_LIMIT
    && (Unhashed(chip, mem) || ChecksumOk(chip, poly, mem))
  }

  class Bootloader {
    const chip: Chip
    const mem: seq<Byte>
    const stage2: seq<Byte>
    const crc: CrcUnit
    const ram: array<Byte>
    var vectorTable: U32

    ghost predicate Wired() {
      chip.Valid() && chip.Holds(mem) && 8 <= ram.Length && |stage2| <= ram.Length
    }

    constructor (chip: Chip, mem: seq<Byte>, stage2: seq<Byte>, crc: CrcUnit, ram: array<Byte>)
      requires chip.Valid() && chip.Holds(mem) && 8 <= ram.Length && |stage2| <= ram.Length
      ensures Wired() && this.chip == chip && this.mem == mem && this.ram == ram && this.crc == crc
    {
      this.chip, this.mem, this.stage2, this.crc, this.ram := chip, mem, stage2, crc, ram;
      vectorTable := FLASH_BASE;
    }

    /** `main`: accumulate the reasons for DFU mode, clear the marker, then chain to the application or
        copy stage 2 to RAM and chain to it. */
    method Decide(pinHigh: bool)
      requires Wired()
      modifies this`vectorTable, ram, crc
      ensures var boots := BootsApp(chip, crc.poly, mem, old(ram[..8]) == MARKER, pinHigh);
              && vectorTable == (if boots then APP_ADDRESS else RAM_START)
              && ram[..] == Overwrite(Overwrite(old(ram[..]), 0, seq(8, _ => 0)), 0, if boots then [] else stage2)
      ensures old(ram[..8]) == [0xEE, 0xFF, 0x00, 0xCC, 0xEF, 0xBE, 0xAD, 0xDE] || !pinHigh
              ==> vectorTable == 0x2000_0000 && ram[..|stage2|] == stage2
      ensures (vectorTable == 0x0800_2000 && ram[..8] == [0, 0, 0, 0, 0, 0, 0, 0]) || vectorTable == 0x2000_0000
    {
      hide Fold, AppWord, AppWords, Bits, Overwrite;
      var sig, imageSize, checksum := AppWord(chip, mem, 0), AppWord(chip, mem, 2), AppWord(chip, mem, 3);
      var goDfu := if ram[..8] == MARKER then 1 else 0;
      if !pinHigh && goDfu % 2 == 0 {
        goDfu := goDfu + 1;
      }
      if goDfu == 0 && sig / 0x10_0000 != 0x200 {
        goDfu := goDfu + 2;
      }
      if goDfu == 0 {
        if imageSize < SIZE_LIMIT {
          if imageSize != NO_HASH_SIZE || checksum != NO_HASH_CHECKSUM {
            var computed := crc.Compute(AppWords(chip, mem, 4, imageSize / 4));
            if computed != Bits(checksum) {
              goDfu := goDfu + 4;
            }
          }
        } else {
          goDfu := 1;
        }
      }
      ClearMarker();
      if goDfu == 0 {
        vectorTable := APP_ADDRESS - APP_ADDRESS % 16;
      } else {
        CopyStage2();
        vectorTable := RAM_START;
      }
    }

    method ClearMarker()
      requires Wired()
      modifies ram
      ensures ram[..] == Overwrite(old(ram[..]), 0, seq(8, _ => 0))
    {
      forall i | 0 <= i < 8 {
        ram[i] := 0;
      }
      assert ram[..] == seq(8, _ => 0) + old(ram[..])[8..];
    }

    method CopyStage2()
      requires Wired()
      modifies ram
      ensures ram[..] == Overwrite(old(ram[..]), 0, stage2)
    {
      forall i | 0 <= i < |stage2| {
        ram[i] := stage2[i];
      }
      assert ram[..] == stage2 + old(ram[..])[|stage2|..];
    }
  }

  // ---- Damage --------------------------------------------------------------------------------

  lemma NibbleValue(x: int)
    requires 0 <= x < 16
    ensures Nibble(x) as int == x
  {
  }

  lemma NibbleInjective(x: int, y: int)
    requires 0 <= x < 16 && 0 <= y < 16 && Nibble(x) == Nibble(y)
    ensures x == y
  {
    hide Nibble;
    NibbleValue(x);
    NibbleValue(y);
  }

  lemma JoinNibblesInjective(h: bv4, l: bv4, i: bv4, m: bv4)
    requires JoinNibbles(h, l) == JoinNibbles(i, m)
    ensures h == i && l == m
  {
  }

  lemma OctetInjective(a: Byte, b: Byte)
    requires Octet(a) == Octet(b)
    ensures a == b
  {
    hide Nibble, JoinNibbles;
    JoinNibblesInjective(Nibble(a / 16), Nibble(a % 16), Nibble(b / 16), Nibble(b % 16));
    NibbleInjective(a / 16, b / 16);
    NibbleInjective(a % 16, b % 16);
  }

  lemma JoinInjective(a0: bv8, a1: bv8, a2: bv8, a3: bv8, b0: bv8, b1: bv8, b2: bv8, b3: bv8)
    requires Join(a0, a1, a2, a3) == Join(b0, b1, b2, b3)
    ensures a0 == b0 && a1 == b1 && a2 == b2 && a3 == b3
  {
  }

  /** Distinct words are distinct to the CRC unit. */
  lemma BitsInjective(x: U32, y: U32)
    requires Bits(x) == Bits(y)
    ensures x == y
  {
    var s, t := Bytes32(x), Bytes32(y);
    hide Join, Octet, Bytes32;
    JoinInjective(Octet(s[0]), Octet(s[1]), Octet(s[2]), Octet(s[3]),
                  Octet(t[0]), Octet(t[1]), Octet(t[2]), Octet(t[3]));
    OctetInjective(s[0], t[0]);
    OctetInjective(s[1], t[1]);
    OctetInjective(s[2], t[2]);
    OctetInjective(s[3], t[3]);
    assert s == t;
  }

  /** And the value is the word itself, here with eight different digits. */
  lemma BitsValue()
    ensures Bits(0x1234_5678) == 0x1234_5678
  {
    assert Bytes32(0x1234_5678) == [0x78, 0x56, 0x34, 0x12];
    assert Octet(0x78) == 0x78 && Octet(0x56) == 0x56 && Octet(0x34) == 0x34 && Octet(0x12) == 0x12;
  }

  /** One changed word under the checksum, in an image that is hashed and passes, always leads to DFU
      mode: there is no pattern of changed bits inside a word that the check lets through. */
  lemma DamageDetected(chip: Chip, poly: bv32, mem: seq<Byte>, bad: seq<Byte>, k: nat, marked: bool, pinHigh: bool)
    requires chip.Valid() && chip.Holds(mem) && chip.Holds(bad) && poly & 1 == 1
    requires !Unhashed(chip, mem) && ChecksumOk(chip, poly, mem)
    requires k < CoveredCount(chip, mem) && AppWord(chip, bad, 4 + k) != AppWord(chip, mem, 4 + k)
    requires forall j :: 0 <= j < 4 + CoveredCount(chip, mem) && j != 4 + k ==>
                           AppWord(chip, bad, j) == AppWord(chip, mem, j)
    ensures !BootsApp(chip, poly, bad, marked, pinHigh)
  {
    hide Fold, AppWord;
    var n := CoveredCount(chip, mem);
    var ws, xs := AppWords(chip, mem, 4, n), AppWords(chip, bad, 4, n);
    if ws[k] == xs[k] {
      BitsInjective(AppWord(chip, mem, 4 + k), AppWord(chip, bad, 4 + k));
    }
    hide Bits;
    OneWordChanged(poly, INITIAL, ws, xs, k);
  }

  /** The checksum word changed by itself, in a hashed image that is started: it is started no more, unless its
      header has become the pair that declares an image unhashed. */
  lemma ChecksumWordChanged(chip: Chip, poly: bv32, mem: seq<Byte>, bad: seq<Byte>, marked: bool, pinHigh: bool)
    requires chip.Valid() && chip.Holds(mem) && chip.Holds(bad)
    requires !Unhashed(chip, mem) && BootsApp(chip, poly, mem, marked, pinHigh)
    requires AppWord(chip, bad, 3) != AppWord(chip, mem, 3)
    requires forall j :: 0 <= j < 4 + CoveredCount(chip, mem) && j != 3 ==>
                           AppWord(chip, bad, j) == AppWord(chip, mem, j)
    ensures BootsApp(chip, poly, bad, marked, pinHigh) <==> Unhashed(chip, bad)
  {
    hide Fold, AppWord;
    var n := CoveredCount(chip, mem);
    assert AppWords(chip, bad, 4, n) == AppWords(chip, mem, 4, n);
    if Bits(AppWord(chip, bad, 3)) == Bits(AppWord(chip, mem, 3)) {
      BitsInjective(AppWord(chip, bad, 3), AppWord(chip, mem, 3));
    }
    hide Bits;
  }

  // ---- Downloaded images ---------------------------------------------------------------------

  /** An image that carries its own size and checksum and a stack pointer in RAM. */
  predicate Consistent(poly: bv32, image: seq<Byte>) {
    && 16 <= |image| && 0x2000_0000 <= Le32(image, 0) < 0x2010_0000
    && Le32(image, 8) < 0x4_0000 && 16 + 4 * (Le32(image, 8) / 4) <= |image|
    && Fold(poly, 0xFFFF_FFFF, ImageWords(image, Le32(image, 8) / 4)) == Bits(Le32(image, 12))
  }

  /** An image with a stack pointer in RAM that asks not to be checked. */
  predicate DeclaredUnhashed(image: seq<Byte>) {
    && 16 <= |image| && 0x2000_0000 <= Le32(image, 0) < 0x2010_0000
    && Le32(image, 8) == 0x1234 && Le32(image, 12) == 0x5678
  }

  function ImageWords(image: seq<Byte>, n: nat): (ws: seq<bv32>)
    requires 16 + 4 * n <= |image|
    ensures |ws| == n
  {
    seq(n, i requires 0 <= i < n => Bits(Le32(image, 16 + 4 * i)))
  }

  /** The image lies at the start of the user area. */
  predicate Installed(chip: Chip, mem: seq<Byte>, image: seq<Byte>)
    requires chip.Holds(mem)
  {
    BOOT_SIZE + |image| <= |mem| && mem[BOOT_SIZE..BOOT_SIZE + |image|] == image
  }

  lemma InstalledWord(chip: Chip, mem: seq<Byte>, image: seq<Byte>, k: nat)
    requires chip.Valid() && chip.Holds(mem) && Installed(chip, mem, image) && 4 * k + 4 <= |image|
    ensures AppWord(chip, mem, k) == Le32(image, 4 * k)
  {
    var s := mem[BOOT_SIZE..BOOT_SIZE + |image|];
    var at := BOOT_SIZE + 4 * k;
    assert s[4 * k] == mem[at] && s[4 * k + 1] == mem[at + 1];
    assert s[4 * k + 2] == mem[at + 2] && s[4 * k + 3] == mem[at + 3];
  }

  /** Stage 1 judges exactly the image that is installed: one that covers its own checksummed range is started if
      and only if there is no marker, the pin is high, and it is consistent or declares itself unhashed. */
  lemma InstalledVerdict(
      chip: Chip, poly: bv32, mem: seq<Byte>, image: seq<Byte>, marked: bool, pinHigh: bool)
    requires chip.Valid() && chip.Holds(mem) && Installed(chip, mem, image)
    requires 16 <= |image| && 16 + 4 * (Le32(image, 8) / 4) <= |image|
    ensures BootsApp(chip, poly, mem, marked, pinHigh)
            <==> !marked && pinHigh && (Consistent(poly, image) || DeclaredUnhashed(image))
  {
    hide Fold, AppWord, Le32, Bits;
    InstalledWord(chip, mem, image, 0);
    InstalledWord(chip, mem, image, 2);
    InstalledWord(chip, mem, image, 3);
    var n := Le32(image, 8) / 4;
    forall i | 0 <= i < n
      ensures AppWords(chip, mem, 4, n)[i] == ImageWords(image, n)[i]
    {
      InstalledWord(chip, mem, image, 4 + i);
    }
    assert AppWords(chip, mem, 4, n) == ImageWords(image, n);
  }

  /** From packets to boot. Every run from power-on that begins with a bus reset and stays in DFU mode ends
      ready for a session (RunKeepsReady). From there, one session with a consistent image for the start of
      the user area; the next reset with the marker clear and the pin high starts the application. */
  lemma DownloadThenBoot(chip: Chip, poly: bv32, d: Dev, iface: U16, image: seq<Byte>, gs: seq<Gap>)
    requires Ready(chip, d) && Consistent(poly, image) && Gaps(image, gs)
    requires InUserArea(chip, APP_ADDRESS, |image|)
    ensures var r := Run(chip, d, Session(iface, APP_ADDRESS, image, gs)).tgt.mem;
            chip.Holds(r) && BootsApp(chip, poly, r, false, true)
  {
    hide Run, Session, Consistent, BootsApp, AllHarmless;
    FlashBoundsAligned(chip);
    ImageStored(chip, d, iface, APP_ADDRESS, image, gs);
    var r := Run(chip, d, Session(iface, APP_ADDRESS, image, gs)).tgt.mem;
    assert APP_ADDRESS - FLASH_BASE == BOOT_SIZE;
    EvenConsistent(poly, image);
    InstalledVerdict(chip, poly, r, EvenPart(image), false, true);
  }

  /** An odd last byte is neither stored nor checked. */
  lemma EvenConsistent(poly: bv32, image: seq<Byte>)
    requires Consistent(poly, image)
    ensures var even := EvenPart(image);
            Consistent(poly, even) && 16 <= |even| && 16 + 4 * (Le32(even, 8) / 4) <= |even|
  {
    hide Fold, Bits, Le32, EvenPart;
    var even := EvenPart(image);
    EvenWord(image, 0);
    EvenWord(image, 8);
    EvenWord(image, 12);
    var n := Le32(image, 8) / 4;
    EvenLong(image, 16 + 4 * n);
    forall i | 0 <= i < n
      ensures Le32(even, 16 + 4 * i) == Le32(image, 16 + 4 * i)
    {
      EvenWord(image, 16 + 4 * i);
    }
    assert ImageWords(even, n) == ImageWords(image, n);
  }

  lemma EvenLong(image: seq<Byte>, m: nat)
    requires m <= |image| && m % 2 == 0
    ensures m <= |EvenPart(image)|
  {
  }

  lemma EvenWord(image: seq<Byte>, at: nat)
    requires at % 4 == 0 && at + 4 <= |image|
    ensures at + 4 <= |EvenPart(image)| && Le32(EvenPart(image), at) == Le32(image, at)
  {
  }
}
