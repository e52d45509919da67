/** The endpoint registers: 16 bits of which some toggle when written with 1, some clear when written
    with 0, and some are plain. The macros are modelled as the words they write; each is shown to
    change its own field and nothing else, over any interleaving with hardware events. */
module EndpointRegister {
  import opened Control

  const RX_CTR: bv16 := 0x8000
  const RX_DTOG: bv16 := 0x4000
  const RX_STAT: bv16 := 0x3000
  const SETUP_BIT: bv16 := 0x0800
  const TYPE_BITS: bv16 := 0x0600
  const KIND_BIT: bv16 := 0x0100
  const TX_CTR: bv16 := 0x0080
  const TX_DTOG: bv16 := 0x0040
  const TX_STAT: bv16 := 0x0030
  const ADDR_BITS: bv16 := 0x000F

  /** All bits that do not toggle. */
  const NTOGGLE: bv16 := RX_CTR | SETUP_BIT | TYPE_BITS | KIND_BIT | TX_CTR | ADDR_BITS

  const TYPE_CONTROL: bv16 := 0x0200

  /** The register as independent fields. */
  datatype Fields = Fields(
    rxCtr: bool, rxDtog: bool, rx: Stat, setup: bool, kind: bool, epType: bv16,
    txCtr: bool, txDtog: bool, tx: Stat, addr: bv16)

  /** The two status bits of a direction, moved down to bits 1..0. */
  function StatOf(bits: bv16): Stat {
    if bits == 0 then Disabled else if bits == 1 then Stall else if bits == 2 then Nak else Valid
  }

  function StatBits(s: Stat): (bits: bv16)
    ensures bits & 3 == bits && StatOf(bits) == s
  {
    match s
    case Disabled => 0
    case Stall => 1
    case Nak => 2
    case Valid => 3
  }

  function Decode(r: bv16): Fields {
    Fields(r & RX_CTR != 0, r & RX_DTOG != 0, StatOf((r & RX_STAT) >> 12), r & SETUP_BIT != 0,
           r & KIND_BIT != 0, r & TYPE_BITS,
           r & TX_CTR != 0, r & TX_DTOG != 0, StatOf((r & TX_STAT) >> 4), r & ADDR_BITS)
  }

  /** Hardware: what a 16-bit write does to the register. */
  function Written(r: bv16, w: bv16): bv16 {
    ((r ^ w) & (RX_DTOG | RX_STAT | TX_DTOG | TX_STAT))
    | (r & w & (RX_CTR | TX_CTR))
    | (w & (TYPE_BITS | KIND_BIT | ADDR_BITS))
    | (r & SETUP_BIT)
  }

  /** What can happen to the register: the eight macros, a received packet, a sent packet, a bus reset. */
  datatype Op =
    | SetRxStat(rs: Stat) | SetTxStat(ts: Stat) | ClearRxDtog | ClearTxDtog | ClearRxCtr | ClearTxCtr
    | SetType(epType: bv16) | SetAddr(addr: bv16)
    | PacketReceived(isSetup: bool) | PacketSent | BusResets
  {
    predicate Legal() {
      && (SetType? ==> epType & TYPE_BITS == epType)
      && (SetAddr? ==> addr & ADDR_BITS == addr)
    }
  }

  /** The word each macro writes, computed from the register as it reads it. */
  function MacroWord(r: bv16, op: Op): bv16
    requires !op.PacketReceived? && !op.PacketSent? && !op.BusResets?
  {
    match op
    case SetRxStat(s) => ((r & (RX_STAT | NTOGGLE)) ^ (StatBits(s) << 12)) | (RX_CTR | TX_CTR)
    case SetTxStat(s) => ((r & (TX_STAT | NTOGGLE)) ^ (StatBits(s) << 4)) | (RX_CTR | TX_CTR)
    case ClearRxDtog => r & (NTOGGLE | RX_DTOG)
    case ClearTxDtog => r & (NTOGGLE | TX_DTOG)
    case ClearRxCtr => (r & NTOGGLE & !RX_CTR) | TX_CTR
    case ClearTxCtr => (r & NTOGGLE & !TX_CTR) | RX_CTR
    case SetType(t) => (r & NTOGGLE & !TYPE_BITS) | t
    case SetAddr(a) => (r & NTOGGLE & !ADDR_BITS) | a
  }

  /** The register after an operation. Hardware events are given by their effect: a received packet
      raises RX_CTR and NAKs reception; a setup packet NAKs transmission too and sets both data
      toggles; a sent packet raises TX_CTR and NAKs transmission; a bus reset clears all but the two
      CTR bits. */
  function Next(r: bv16, op: Op): bv16 {
    match op
    case PacketReceived(isSetup) =>
      if isSetup then
        (r & !(RX_STAT | TX_STAT)) | RX_CTR | SETUP_BIT | RX_DTOG | TX_DTOG | 0x2020
      else ((r ^ RX_DTOG) & !(RX_STAT | SETUP_BIT)) | RX_CTR | 0x2000
    case PacketSent => ((r ^ TX_DTOG) & !TX_STAT) | TX_CTR | 0x0020
    case BusResets => r & (RX_CTR | TX_CTR)
    case _ => Written(r, MacroWord(r, op))
  }

  /** The same operation on independent fields. */
  function NextFields(f: Fields, op: Op): Fields {
    match op
    case SetRxStat(s) => f.(rx := s)
    case SetTxStat(s) => f.(tx := s)
    case ClearRxDtog => f.(rxDtog := false)
    case ClearTxDtog => f.(txDtog := false)
    case ClearRxCtr => f.(rxCtr := false)
    case ClearTxCtr => f.(txCtr := false)
    case SetType(t) => f.(epType := t)
    case SetAddr(a) => f.(addr := a)
    case PacketReceived(isSetup) =>
      if isSetup then f.(rxCtr := true, setup := true, rx := Nak, tx := Nak, rxDtog := true, txDtog := true)
      else f.(rxCtr := true, setup := false, rx := Nak, rxDtog := !f.rxDtog)
    case PacketSent => f.(txCtr := true, tx := Nak, txDtog := !f.txDtog)
    case BusResets => Fields(f.rxCtr, false, Disabled, false, false, 0, f.txCtr, false, Disabled, 0)
  }

  /** The bits of a window replaced. */
  function Put(r: bv16, window: bv16, bits: bv16): bv16 {
    (r & !window) | bits
  }

  // For each macro: the word it writes replaces its own window of the register; replacing that window
  // changes its own field.

  lemma SetRxStatBits(r: bv16, s: Stat)
    ensures Written(r, MacroWord(r, SetRxStat(s))) == Put(r, RX_STAT, StatBits(s) << 12)
  {
  }

  lemma SetRxStatField(r: bv16, s: Stat)
    ensures Decode(Put(r, RX_STAT, StatBits(s) << 12)) == Decode(r).(rx := s)
  {
  }

  lemma SetRxStatRefines(r: bv16, s: Stat)
    ensures Decode(Next(r, SetRxStat(s))) == NextFields(Decode(r), SetRxStat(s))
  {
    hide Decode, Written, MacroWord, Put, StatBits;
    SetRxStatBits(r, s);
    SetRxStatField(r, s);
  }

  lemma SetTxStatBits(r: bv16, s: Stat)
    ensures Written(r, MacroWord(r, SetTxStat(s))) == Put(r, TX_STAT, StatBits(s) << 4)
  {
  }

  lemma SetTxStatField(r: bv16, s: Stat)
    ensures Decode(Put(r, TX_STAT, StatBits(s) << 4)) == Decode(r).(tx := s)
  {
  }

  lemma SetTxStatRefines(r: bv16, s: Stat)
    ensures Decode(Next(r, SetTxStat(s))) == NextFields(Decode(r), SetTxStat(s))
  {
    hide Decode, Written, MacroWord, Put, StatBits;
    SetTxStatBits(r, s);
    SetTxStatField(r, s);
  }

  lemma ClearRxDtogBits(r: bv16)
    ensures Written(r, MacroWord(r, ClearRxDtog)) == Put(r, RX_DTOG, 0)
  {
  }

  lemma ClearRxDtogField(r: bv16)
    ensures Decode(Put(r, RX_DTOG, 0)) == Decode(r).(rxDtog := false)
  {
  }

  lemma ClearRxDtogRefines(r: bv16)
    ensures Decode(Next(r, ClearRxDtog)) == NextFields(Decode(r), ClearRxDtog)
  {
    hide Decode, Written, MacroWord, Put, StatBits;
    ClearRxDtogBits(r);
    ClearRxDtogField(r);
  }

  lemma ClearTxDtogBits(r: bv16)
    ensures Written(r, MacroWord(r, ClearTxDtog)) == Put(r, TX_DTOG, 0)
  {
  }

  lemma ClearTxDtogField(r: bv16)
    ensures Decode(Put(r, TX_DTOG, 0)) == Decode(r).(txDtog := false)
  {
  }

  lemma ClearTxDtogRefines(r: bv16)
    ensures Decode(Next(r, ClearTxDtog)) == NextFields(Decode(r), ClearTxDtog)
  {
    hide Decode, Written, MacroWord, Put, StatBits;
    ClearTxDtogBits(r);
    ClearTxDtogField(r);
  }

  lemma ClearRxCtrBits(r: bv16)
    ensures Written(r, MacroWord(r, ClearRxCtr)) == Put(r, RX_CTR, 0)
  {
  }

  lemma ClearRxCtrField(r: bv16)
    ensures Decode(Put(r, RX_CTR, 0)) == Decode(r).(rxCtr := false)
  {
  }

  lemma ClearRxCtrRefines(r: bv16)
    ensures Decode(Next(r, ClearRxCtr)) == NextFields(Decode(r), ClearRxCtr)
  {
    hide Decode, Written, MacroWord, Put, StatBits;
    ClearRxCtrBits(r);
    ClearRxCtrField(r);
  }

  lemma ClearTxCtrBits(r: bv16)
    ensures Written(r, MacroWord(r, ClearTxCtr)) == Put(r, TX_CTR, 0)
  {
  }

  lemma ClearTxCtrField(r: bv16)
    ensures Decode(Put(r, TX_CTR, 0)) == Decode(r).(txCtr := false)
  {
  }

  lemma ClearTxCtrRefines(r: bv16)
    ensures Decode(Next(r, ClearTxCtr)) == NextFields(Decode(r), ClearTxCtr)
  {
    hide Decode, Written, MacroWord, Put, StatBits;
    ClearTxCtrBits(r);
    ClearTxCtrField(r);
  }

  lemma SetTypeBits(r: bv16, x: bv16)
    requires x & TYPE_BITS == x
    ensures Written(r, MacroWord(r, SetType(x))) == Put(r, TYPE_BITS, x)
  {
  }

  lemma SetTypeField(r: bv16, x: bv16)
    requires x & TYPE_BITS == x
    ensures Decode(Put(r, TYPE_BITS, x)) == Decode(r).(epType := x)
  {
  }

  lemma SetTypeRefines(r: bv16, x: bv16)
    requires x & TYPE_BITS == x
    ensures Decode(Next(r, SetType(x))) == NextFields(Decode(r), SetType(x))
  {
    hide Decode, Written, MacroWord, Put, StatBits;
    SetTypeBits(r, x);
    SetTypeField(r, x);
  }

  lemma SetAddrBits(r: bv16, x: bv16)
    requires x & ADDR_BITS == x
    ensures Written(r, MacroWord(r, SetAddr(x))) == Put(r, ADDR_BITS, x)
  {
  }

  lemma SetAddrField(r: bv16, x: bv16)
    requires x & ADDR_BITS == x
    ensures Decode(Put(r, ADDR_BITS, x)) == Decode(r).(addr := x)
  {
  }

  lemma SetAddrRefines(r: bv16, x: bv16)
    requires x & ADDR_BITS == x
    ensures Decode(Next(r, SetAddr(x))) == NextFields(Decode(r), SetAddr(x))
  {
    hide Decode, Written, MacroWord, Put, StatBits;
    SetAddrBits(r, x);
    SetAddrField(r, x);
  }

  lemma ReceivedRefines(r: bv16, isSetup: bool)
    ensures Decode(Next(r, PacketReceived(isSetup))) == NextFields(Decode(r), PacketReceived(isSetup))
  {
    hide MacroWord, Written;
  }

  lemma SentRefines(r: bv16)
    ensures Decode(Next(r, PacketSent)) == NextFields(Decode(r), PacketSent)
  {
    hide MacroWord, Written;
  }

  lemma ResetRefines(r: bv16)
    ensures Decode(Next(r, BusResets)) == NextFields(Decode(r), BusResets)
  {
    hide MacroWord, Written;
  }

  /** Each operation changes exactly its own field. */
  lemma NextRefines(r: bv16, op: Op)
    requires op.Legal()
    ensures Decode(Next(r, op)) == NextFields(Decode(r), op)
  {
    hide Decode, Next, NextFields;
    match op
    case SetRxStat(s) => SetRxStatRefines(r, s);
    case SetTxStat(s) => SetTxStatRefines(r, s);
    case ClearRxDtog => ClearRxDtogRefines(r);
    case ClearTxDtog => ClearTxDtogRefines(r);
    case ClearRxCtr => ClearRxCtrRefines(r);
    case ClearTxCtr => ClearTxCtrRefines(r);
    case SetType(t) => SetTypeRefines(r, t);
    case SetAddr(a) => SetAddrRefines(r, a);
    case PacketReceived(isSetup) => ReceivedRefines(r, isSetup);
    case PacketSent => SentRefines(r);
    case BusResets => ResetRefines(r);
  }

  function After(r: bv16, ops: seq<Op>): bv16 {
    if ops == [] then r else Next(After(r, ops[..|ops| - 1]), ops[|ops| - 1])
  }

  function AfterFields(f: Fields, ops: seq<Op>): Fields {
    if ops == [] then f else NextFields(AfterFields(f, ops[..|ops| - 1]), ops[|ops| - 1])
  }

  /** Over any sequence of macros and hardware events the register is the record of its fields. */
  lemma {:induction false} RegisterRefines(r: bv16, ops: seq<Op>)
    requires forall op :: op in ops ==> op.Legal()
    ensures Decode(After(r, ops)) == AfterFields(Decode(r), ops)
  {
    hide Decode, Next;
    if ops != [] {
      RegisterRefines(r, ops[..|ops| - 1]);
      NextRefines(After(r, ops[..|ops| - 1]), ops[|ops| - 1]);
    }
  }

  /** The eight endpoint registers. The ghost view is the record each register stands for. */
  class EndpointFile {
    const regs: array<bv16>
    ghost var view: seq<Fields>

    ghost predicate Valid()
      reads this, regs
    {
      regs.Length == 8 && |view| == 8 && forall n :: 0 <= n < 8 ==> view[n] == Decode(regs[n])
    }

    constructor ()
      ensures Valid() && fresh(regs)
      ensures forall n :: 0 <= n < 8 ==> view[n].rx == Disabled && view[n].tx == Disabled
    {
      regs := new bv16[8](_ => 0);
      view := seq(8, _ => Decode(0));
    }

    /** Run one macro, or one hardware event, on register n. */
    method Do(n: nat, op: Op)
      requires Valid() && n < 8 && op.Legal()
      modifies this, regs
      ensures Valid() && view == old(view)[n := NextFields(old(view)[n], op)]
    {
      hide Decode, Next, NextFields;
      NextRefines(regs[n], op);
      regs[n] := Next(regs[n], op);
      view := view[n := NextFields(view[n], op)];
    }

    method Status(n: nat) returns (f: Fields)
      requires Valid() && n < 8
      ensures f == view[n]
    {
      f := Decode(regs[n]);
    }

    /** A bus reset reaches every register. */
    method ResetAll()
      requires Valid()
      modifies this, regs
      ensures Valid() && forall n :: 0 <= n < 8 ==> view[n] == NextFields(old(view)[n], BusResets)
    {
      hide Decode, Next, NextFields;
      ghost var was := view;
      for n := 0 to 8
        invariant Valid()
        invariant forall k :: 0 <= k < n ==> view[k] == NextFields(was[k], BusResets)
        invariant forall k :: n <= k < 8 ==> view[k] == was[k]
      {
        Do(n, BusResets);
      }
    }
  }
}
