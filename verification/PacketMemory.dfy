/** The packet memory: 16-bit slots, one every 32 bits of CPU address space, so slot k holds bytes 2k and
    2k + 1 of a packet. */
module PacketMemory {
  import opened Words
  import opened DfuRequests

  /** Byte i of the packet that slots hold. */
  function ByteOf(slots: seq<U16>, i: nat): Byte
    requires i / 2 < |slots|
  {
    if i % 2 == 0 then slots[i / 2] % 0x100 else slots[i / 2] / 0x100
  }

  /** The first n bytes of the packet that slots hold. */
  function Unpack(slots: seq<U16>, n: nat): (p: seq<Byte>)
    requires n <= 2 * |slots|
    ensures |p| == n
  {
    seq(n, i requires 0 <= i < n => ByteOf(slots, i))
  }

  /** `st_usbfs_copy_to_pm`: whole 16-bit words, so an odd length also reads the byte behind the data,
      which must exist; no slot beyond the rounded length is written. */
  method CopyToPm(pm: array<U16>, buf: array<Byte>, off: nat, len: nat)
    requires off + len + len % 2 <= buf.Length && len + len % 2 <= 2 * pm.Length
    modifies pm
    ensures Unpack(pm[..], len) == buf[off..off + len]
    ensures forall k :: (len + 1) / 2 <= k < pm.Length ==> pm[k] == old(pm[k])
  {
    var words := (len + 1) / 2;
    var k := 0;
    while k < words
      invariant 0 <= k <= words
      invariant forall j :: 0 <= j < k ==> pm[j] % 0x100 == buf[off + 2 * j] && pm[j] / 0x100 == buf[off + 2 * j + 1]
      invariant forall j :: k <= j < pm.Length ==> pm[j] == old(pm[j])
    {
      var lo: int, hi: int := buf[off + 2 * k], buf[off + 2 * k + 1];
      pm[k] := lo + 0x100 * hi;
      k := k + 1;
    }
    forall j | 0 <= j < len
      ensures ByteOf(pm[..], j) == buf[off + j]
    {
      assert j == 2 * (j / 2) + j % 2;
    }
  }

  /** `st_usbfs_copy_from_pm`: exactly len bytes are written, an odd last one from the low half of its
      slot. */
  method CopyFromPm(buf: array<Byte>, off: nat, pm: array<U16>, len: nat)
    requires off + len <= buf.Length && len <= 2 * pm.Length
    modifies buf
    ensures buf[..] == Overwrite(old(buf[..]), off, Unpack(pm[..], len))
  {
    ghost var was := buf[..];
    var k := 0;
    while k < len / 2
      invariant 0 <= k <= len / 2
      invariant forall j :: 0 <= j < k ==> buf[off + 2 * j] == pm[j] % 0x100 && buf[off + 2 * j + 1] == pm[j] / 0x100
      invariant forall j :: 0 <= j < buf.Length && !(off <= j < off + 2 * k) ==> buf[j] == was[j]
    {
      buf[off + 2 * k] := pm[k] % 0x100;
      buf[off + 2 * k + 1] := pm[k] / 0x100;
      k := k + 1;
    }
    if len % 2 == 1 {
      buf[off + len - 1] := pm[len / 2] % 0x100;
    }
    forall j | 0 <= j < len
      ensures buf[off + j] == ByteOf(pm[..], j)
    {
      assert j == 2 * (j / 2) + j % 2;
    }
    Pieces(was, buf[..], off, Unpack(pm[..], len));
  }

  lemma Pieces(was: seq<Byte>, now: seq<Byte>, off: nat, data: seq<Byte>)
    requires off + |data| <= |was| && |now| == |was|
    requires forall j :: 0 <= j < |data| ==> now[off + j] == data[j]
    requires forall j :: 0 <= j < |was| && !(off <= j < off + |data|) ==> now[j] == was[j]
    ensures now == Overwrite(was, off, data)
  {
    assert now[..off] == was[..off];
    assert now[off..off + |data|] == data;
    assert now[off + |data|..] == was[off + |data|..];
    assert now == now[..off] + now[off..off + |data|] + now[off + |data|..];
  }

  /** The hardware fills slots the same way when a packet arrives. */
  method Deliver(pm: array<U16>, p: seq<Byte>)
    requires |p| <= 2 * pm.Length
    modifies pm
    ensures Unpack(pm[..], |p|) == p
  {
    forall k | 0 <= k < pm.Length && 2 * k < |p| {
      pm[k] := var lo: int := p[2 * k];
               var hi: int := if 2 * k + 1 < |p| then p[2 * k + 1] else pm[k] / 0x100;
               lo + 0x100 * hi;
    }
    forall j | 0 <= j < |p|
      ensures ByteOf(pm[..], j) == p[j]
    {
      assert j == 2 * (j / 2) + j % 2;
    }
  }

  /** Out to the packet memory and back: the same bytes, and nothing past the length is touched on either
      side. */
  method RoundTrip(to: array<Byte>, pm: array<U16>, from: array<Byte>, len: nat)
    requires to != from && len + len % 2 <= from.Length && len <= to.Length && len + len % 2 <= 2 * pm.Length
    modifies to, pm
    ensures to[..len] == from[..len] && to[len..] == old(to[len..])
    ensures forall k :: (len + 1) / 2 <= k < pm.Length ==> pm[k] == old(pm[k])
  {
    CopyToPm(pm, from, 0, len);
    CopyFromPm(to, 0, pm, len);
    assert from[0..len] == from[..len];
  }
}
