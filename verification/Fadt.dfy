/** src/acpi/fadt.rs: a zeroed body whose fields are patched in place, one after another. */
module Fadt {
  import opened Bytes
  import opened AcpiTable

  /** Bytes to be put at a place. */
  datatype Write = Write(at: nat, bytes: seq<byte>) {
    function End(): nat { at + |bytes| }
  }

  /** Every write is still there. */
  predicate Kept(s: seq<byte>, ws: seq<Write>) {
    forall k :: 0 <= k < |ws| ==> ws[k].End() <= |s| && s[ws[k].at..ws[k].End()] == ws[k].bytes
  }

  predicate Below(ws: seq<Write>, limit: nat) {
    forall k :: 0 <= k < |ws| ==> ws[k].End() <= limit
  }

  /** No write covers byte `i`. */
  predicate Free(ws: seq<Write>, i: nat) {
    forall k :: 0 <= k < |ws| ==> !(ws[k].at <= i < ws[k].End())
  }

  /** The body while its fields are filled in: the writes so far lie below a limit, and whatever
      they do not cover is 0. */
  ghost predicate Filled(s: seq<byte>, ws: seq<Write>, limit: nat) {
    Kept(s, ws) && Below(ws, limit) && limit <= |s|
    && forall i :: 0 <= i < |s| && Free(ws, i) ==> s[i] == 0
  }

  /** patch_u16, patch_u32, patch_u64, patch_gas and the single bytes: the bytes at one place, nothing
      else. */
  method Patch(body: array<byte>, at: nat, bytes: seq<byte>)
    requires at + |bytes| <= body.Length
    modifies body
    ensures body[..] == old(body[..at]) + bytes + old(body[at + |bytes|..])
  {
    CopyFrom(body, at, bytes);
    assert body[..] == body[..at + |bytes|] + body[at + |bytes|..];
  }

  /** A patch above the fields filled in so far keeps all of them. */
  method PatchNext(body: array<byte>, at: nat, bytes: seq<byte>, ghost ws: seq<Write>, ghost limit: nat)
    returns (ghost now: seq<Write>)
    requires Filled(body[..], ws, limit) && limit <= at && at + |bytes| <= body.Length
    modifies body
    ensures now == ws + [Write(at, bytes)] && Filled(body[..], now, at + |bytes|)
  {
    ghost var before := body[..];
    Patch(body, at, bytes);
    now := ws + [Write(at, bytes)];
    Patched(before, body[..], ws, limit, Write(at, bytes));
  }

  lemma Patched(s: seq<byte>, s': seq<byte>, ws: seq<Write>, limit: nat, w: Write)
    requires Filled(s, ws, limit) && limit <= w.at && w.End() <= |s| == |s'|
    requires s'[..w.End()] == s[..w.at] + w.bytes && s'[w.End()..] == s[w.End()..]
    ensures Filled(s', ws + [w], w.End())
  {
    var now := ws + [w];
    assert s'[..w.at] == s[..w.at] by {
      assert s'[..w.End()][..w.at] == s'[..w.at];
    }
    forall k | 0 <= k < |now|
      ensures now[k].End() <= |s'| && s'[now[k].at..now[k].End()] == now[k].bytes
    {
      if k < |ws| {
        assert s'[..w.at][now[k].at..now[k].End()] == s[..w.at][now[k].at..now[k].End()];
      } else {
        assert s'[..w.End()][w.at..w.End()] == w.bytes;
      }
    }
    forall i | 0 <= i < |s'| && Free(now, i)
      ensures s'[i] == 0
    {
      assert Free(ws, i) by {
        assert forall k :: 0 <= k < |ws| ==> now[k] == ws[k];
      }
      assert now[|ws|] == w;
      if i < w.at {
        assert s'[..w.at][i] == s[..w.at][i];
      } else {
        assert s'[w.End()..][i - w.End()] == s[w.End()..][i - w.End()];
      }
    }
  }

  /** What the table takes from the configuration. */
  datatype Registers = Registers(sciIrq: u16, pmIoBase: u16, gpe0Base: u16, gpe0Len: byte, resetIoBase: u16,
                                 resetValue: byte, cpus: nat)

  /** Gas::io and Gas::encode: an I/O port in a generic address structure. */
  function GasIo(bitWidth: byte, address: u16): seq<byte> {
    [1, bitWidth, 0, 0] + Le(address, 8)
  }

  /** `u16` addition, wrapping. */
  function Plus16(a: u16, b: nat): u16 { (a + b) % 0x1_0000 }

  /** WBINVD, PROC_C1, SLP_BUTTON, RTC_S4, RESET_REG_SUP and USE_PLATFORM_CLOCK; with more than
      eight CPUs FORCE_APIC_CLUSTER_MODEL too. */
  function Flags(cpus: nat): u32 {
    1 + 4 + 32 + 128 + 1024 + 0x8000 + if cpus > 8 then 0x4_0000 else 0
  }

  function Gpe0Width(len: byte): byte {
    if len == 0 then 8 else if len >= 32 then 255 else
      var n: int := len;
      8 * n
  }

  /** The fields of the body (section 5.2.9 of ACPI 5.0, less the header). */
  function BlockFields(r: Registers, facs: u64, dsdt: u64): seq<Write> {
    [Write(0, Le(facs % 0x1_0000_0000, 4)), Write(4, Le(dsdt % 0x1_0000_0000, 4)), Write(10, Le(r.sciIrq, 2)),
     Write(20, Le(r.pmIoBase, 4)), Write(28, Le(Plus16(r.pmIoBase, 4), 4)), Write(40, Le(Plus16(r.pmIoBase, 8), 4)),
     Write(44, Le(r.gpe0Base, 4))]
  }

  function FixedFields(r: Registers): seq<Write> {
    [Write(52, [4]), Write(53, [2]), Write(55, [4]), Write(56, [r.gpe0Len]),
     Write(60, Le(0xFFF, 2)), Write(62, Le(0xFFF, 2)), Write(72, [0x32]), Write(74, Le(2, 2)),
     Write(76, Le(Flags(r.cpus), 4)), Write(80, GasIo(8, r.resetIoBase)), Write(92, [r.resetValue])]
  }

  function ExtendedFields(r: Registers, dsdt: u64): seq<Write> {
    [Write(96, Le(0, 8)), Write(104, Le(dsdt, 8)), Write(112, GasIo(32, r.pmIoBase)),
     Write(136, GasIo(16, Plus16(r.pmIoBase, 4))), Write(172, GasIo(32, Plus16(r.pmIoBase, 8))),
     Write(184, GasIo(Gpe0Width(r.gpe0Len), r.gpe0Base))]
  }

  function Fields(r: Registers, facs: u64, dsdt: u64): seq<Write> {
    BlockFields(r, facs, dsdt) + FixedFields(r) + ExtendedFields(r, dsdt)
  }

  method PatchBlocks(body: array<byte>, r: Registers, facs: u64, dsdt: u64) returns (ghost ws: seq<Write>)
    requires body.Length == 208 && Filled(body[..], [], 0)
    modifies body
    ensures ws == BlockFields(r, facs, dsdt) && Filled(body[..], ws, 48)
  {
    hide Filled, Le;
    ws := PatchNext(body, 0, Le(facs % 0x1_0000_0000, 4), [], 0);
    ws := PatchNext(body, 4, Le(dsdt % 0x1_0000_0000, 4), ws, 4);
    ws := PatchNext(body, 10, Le(r.sciIrq, 2), ws, 8);
    ws := PatchNext(body, 20, Le(r.pmIoBase, 4), ws, 12);
    ws := PatchNext(body, 28, Le(Plus16(r.pmIoBase, 0x04), 4), ws, 24);
    ws := PatchNext(body, 40, Le(Plus16(r.pmIoBase, 0x08), 4), ws, 32);
    ws := PatchNext(body, 44, Le(r.gpe0Base, 4), ws, 44);
  }

  method PatchFixed(body: array<byte>, r: Registers, ghost before: seq<Write>) returns (ghost ws: seq<Write>)
    requires body.Length == 208 && Filled(body[..], before, 48)
    modifies body
    ensures ws == before + FixedFields(r) && Filled(body[..], ws, 93)
  {
    hide Filled, Le, GasIo, Flags;
    ws := PatchNext(body, 52, [4], before, 48);
    ws := PatchNext(body, 53, [2], ws, 53);
    ws := PatchNext(body, 55, [4], ws, 54);
    ws := PatchNext(body, 56, [r.gpe0Len], ws, 56);
    ws := PatchNext(body, 60, Le(0xFFF, 2), ws, 57);
    ws := PatchNext(body, 62, Le(0xFFF, 2), ws, 62);
    ws := PatchNext(body, 72, [0x32], ws, 64);
    ws := PatchNext(body, 74, Le(2, 2), ws, 73);
    ws := PatchNext(body, 76, Le(Flags(r.cpus), 4), ws, 76);
    GasLength(8, r.resetIoBase);
    ws := PatchNext(body, 80, GasIo(8, r.resetIoBase), ws, 80);
    ws := PatchNext(body, 92, [r.resetValue], ws, 92);
  }

  lemma GasLength(bitWidth: byte, address: u16)
    ensures |GasIo(bitWidth, address)| == 12
  {
  }

  method PatchExtended(body: array<byte>, r: Registers, dsdt: u64,
        ghost before: seq<Write>) returns (ghost ws: seq<Write>)
    requires body.Length == 208 && Filled(body[..], before, 93)
    modifies body
    ensures ws == before + ExtendedFields(r, dsdt) && Filled(body[..], ws, 196)
  {
    hide Filled, Le, GasIo;
    ws := PatchNext(body, 96, Le(0, 8), before, 93);
    ws := PatchNext(body, 104, Le(dsdt, 8), ws, 104);
    GasLength(32, r.pmIoBase);
    ws := PatchNext(body, 112, GasIo(32, r.pmIoBase), ws, 112);
    GasLength(16, Plus16(r.pmIoBase, 0x04));
    ws := PatchNext(body, 136, GasIo(16, Plus16(r.pmIoBase, 0x04)), ws, 124);
    GasLength(32, Plus16(r.pmIoBase, 0x08));
    ws := PatchNext(body, 172, GasIo(32, Plus16(r.pmIoBase, 0x08)), ws, 148);
    GasLength(Gpe0Width(r.gpe0Len), r.gpe0Base);
    ws := PatchNext(body, 184, GasIo(Gpe0Width(r.gpe0Len), r.gpe0Base), ws, 184);
  }

  const FADT_SIGNATURE: Bytes4 := [0x46, 0x41, 0x43, 0x50]

  /** build_fadt_with_facs: no field is disturbed by a later patch, the rest of the body is 0, and
      the table is closed with its length and checksum.  The 32-bit addresses are truncated; the
      64-bit FACS address is left 0. */
  method BuildFadtWithFacs(ids: Ids, r: Registers, facs: u64, dsdt: u64) returns (t: seq<byte>)
    ensures |t| == 244 && IsTable(t, Header(ids, FADT_SIGNATURE, 3), t[HEADER_LEN..])
    ensures Filled(t[HEADER_LEN..], Fields(r, facs, dsdt), 196)
  {
    hide Kept, Free, Below, BlockFields, FixedFields, ExtendedFields, IsTable;
    var body := new byte[208](_ => 0);
    NothingYet(body[..]);
    ghost var ws := PatchBlocks(body, r, facs, dsdt);
    ws := PatchFixed(body, r, ws);
    ws := PatchExtended(body, r, dsdt, ws);
    t := FinalizeTable(Header(ids, FADT_SIGNATURE, 3), body[..]);
    TableBody(t, Header(ids, FADT_SIGNATURE, 3), body[..]);
  }

  lemma NothingYet(s: seq<byte>)
    requires forall i :: 0 <= i < |s| ==> s[i] == 0
    ensures Filled(s, [], 0)
  {
  }

  lemma TableBody(t: seq<byte>, h: AcpiHeader, body: seq<byte>)
    requires IsTable(t, h, body)
    ensures |t| == HEADER_LEN + |body| && t[HEADER_LEN..] == body
  {
  }

  /** Where the firmware finds the FACS and the DSDT: table offsets 36, 40, 132 and 140. */
  lemma Pointers(t: seq<byte>, r: Registers, facs: u64, dsdt: u64)
    requires |t| == 244 && Filled(t[HEADER_LEN..], Fields(r, facs, dsdt), 196)
    ensures t[36..40] == Le(facs % 0x1_0000_0000, 4) && t[40..44] == Le(dsdt % 0x1_0000_0000, 4)
    ensures t[132..140] == Le(0, 8) && t[140..148] == Le(dsdt, 8)
  {
    hide Le, GasIo, Flags;
    var ws, body := Fields(r, facs, dsdt), t[HEADER_LEN..];
    assert ws[0] == Write(0, Le(facs % 0x1_0000_0000, 4)) && ws[1] == Write(4, Le(dsdt % 0x1_0000_0000, 4));
    assert ws[18] == ExtendedFields(r, dsdt)[0] && ws[19] == ExtendedFields(r, dsdt)[1];
    assert ws[0].End() == 4 && ws[1].End() == 8 && ws[18].End() == 104 && ws[19].End() == 112;
    hide *;
    Shift(t, 0, 4);
    Shift(t, 4, 8);
    Shift(t, 96, 104);
    Shift(t, 104, 112);
  }

  lemma FieldAt(t: seq<byte>, ws: seq<Write>, limit: nat, k: nat, at: nat, bytes: seq<byte>)
    requires |t| == 244 && Filled(t[HEADER_LEN..], ws, limit) && k < |ws| && ws[k] == Write(at, bytes)
    ensures 36 + at + |bytes| <= 244 && t[36 + at..36 + at + |bytes|] == bytes
  {
    assert ws[k].End() == at + |bytes|;
    Shift(t, at, at + |bytes|);
  }

  /** A finished table as the firmware reads it. */
  ghost predicate IsFadt(t: seq<byte>, r: Registers, facs: u64, dsdt: u64) {
    |t| == 244 && Filled(t[HEADER_LEN..], Fields(r, facs, dsdt), 196)
  }

  /** The register blocks of section 5.2.9 of ACPI 5.0: the interrupt, the power management ports 0, 4
      and 8 above their base, and the general purpose events. */
  lemma Blocks(t: seq<byte>, r: Registers, facs: u64, dsdt: u64)
    requires IsFadt(t, r, facs, dsdt)
    ensures t[46..48] == Le(r.sciIrq, 2) && t[56..60] == Le(r.pmIoBase, 4)
    ensures t[64..68] == Le((r.pmIoBase + 4) % 0x1_0000, 4) && t[76..80] == Le((r.pmIoBase + 8) % 0x1_0000, 4)
    ensures t[80..84] == Le(r.gpe0Base, 4)
  {
    hide Le, GasIo, Flags, Filled, FixedFields, ExtendedFields;
    var ws := Fields(r, facs, dsdt);
    FieldAt(t, ws, 196, 2, 10, Le(r.sciIrq, 2));
    FieldAt(t, ws, 196, 3, 20, Le(r.pmIoBase, 4));
    FieldAt(t, ws, 196, 4, 28, Le(Plus16(r.pmIoBase, 4), 4));
    FieldAt(t, ws, 196, 5, 40, Le(Plus16(r.pmIoBase, 8), 4));
    FieldAt(t, ws, 196, 6, 44, Le(r.gpe0Base, 4));
  }

  /** Lengths of the blocks in bytes, and latencies that rule C2 and C3 out. */
  lemma Lengths(t: seq<byte>, r: Registers, facs: u64, dsdt: u64)
    requires IsFadt(t, r, facs, dsdt)
    ensures t[88] == 4 && t[89] == 2 && t[91] == 4 && t[92] == r.gpe0Len
    ensures t[96..98] == [0xFF, 0x0F] && t[98..100] == [0xFF, 0x0F]
  {
    Latency();
    hide Le, Filled, BlockFields, ExtendedFields, GasIo, Flags;
    var ws, fixed := Fields(r, facs, dsdt), FixedFields(r);
    SevenBlocks(r, facs, dsdt);
    assert forall k :: 0 <= k < 11 ==> ws[7 + k] == fixed[k];
    FieldAt(t, ws, 196, 7, 52, [4]);
    FieldAt(t, ws, 196, 8, 53, [2]);
    FieldAt(t, ws, 196, 9, 55, [4]);
    FieldAt(t, ws, 196, 10, 56, [r.gpe0Len]);
    FieldAt(t, ws, 196, 11, 60, Le(0xFFF, 2));
    FieldAt(t, ws, 196, 12, 62, Le(0xFFF, 2));
    hide FixedFields, Fields;
    ByteAt(t, 88, 4);
    ByteAt(t, 89, 2);
    ByteAt(t, 91, 4);
    ByteAt(t, 92, r.gpe0Len);
  }

  /** The century, the flags and the reset register, an I/O port of 8 bits. */
  lemma Fixed(t: seq<byte>, r: Registers, facs: u64, dsdt: u64)
    requires IsFadt(t, r, facs, dsdt)
    ensures t[108] == 0x32 && t[112..116] == Le(if r.cpus > 8 then 0x4_84A5 else 0x84A5, 4)
    ensures t[116..128] == [1, 8, 0, 0] + Le(r.resetIoBase, 8) && t[128] == r.resetValue
  {
    hide Le, Filled, BlockFields, ExtendedFields;
    var ws, fixed := Fields(r, facs, dsdt), FixedFields(r);
    SevenBlocks(r, facs, dsdt);
    assert forall k :: 0 <= k < 11 ==> ws[7 + k] == fixed[k];
    FieldAt(t, ws, 196, 13, 72, [0x32]);
    FieldAt(t, ws, 196, 15, 76, Le(Flags(r.cpus), 4));
    GasLength(8, r.resetIoBase);
    FieldAt(t, ws, 196, 16, 80, GasIo(8, r.resetIoBase));
    FieldAt(t, ws, 196, 17, 92, [r.resetValue]);
    hide FixedFields, Fields;
    ByteAt(t, 108, 0x32);
    ByteAt(t, 128, r.resetValue);
  }

  lemma SevenBlocks(r: Registers, facs: u64, dsdt: u64)
    ensures |BlockFields(r, facs, dsdt)| == 7 && |FixedFields(r)| == 11
  {
  }

  lemma ByteAt(t: seq<byte>, at: nat, b: byte)
    requires at < |t| && t[at..at + 1] == [b]
    ensures t[at] == b
  {
    assert t[at..at + 1][0] == t[at];
  }

  lemma Latency()
    ensures Le(0xFFF, 2) == [0xFF, 0x0F]
  {
    assert Le(0xFFF, 2) == [0xFF] + Le(0x0F, 1) && Le(0x0F, 1) == [0x0F] + Le(0, 0);
  }

  /** The same blocks as generic addresses of I/O ports: 32, 16 and 32 bits, and for the events eight bits
      for each byte of their length, at least 8 and at most 255. */
  lemma Extended(t: seq<byte>, r: Registers, facs: u64, dsdt: u64)
    requires IsFadt(t, r, facs, dsdt)
    ensures t[148..160] == [1, 32, 0, 0] + Le(r.pmIoBase, 8)
    ensures t[172..184] == [1, 16, 0, 0] + Le((r.pmIoBase + 4) % 0x1_0000, 8)
    ensures t[208..220] == [1, 32, 0, 0] + Le((r.pmIoBase + 8) % 0x1_0000, 8)
    ensures var n: int := r.gpe0Len;
            var width: byte := if n == 0 then 8 else if n < 32 then 8 * n else 255;
            t[220..232] == [1, width, 0, 0] + Le(r.gpe0Base, 8)
  {
    hide Le, Filled, BlockFields, FixedFields;
    var ws, extended := Fields(r, facs, dsdt), ExtendedFields(r, dsdt);
    SevenBlocks(r, facs, dsdt);
    assert forall k :: 0 <= k < 6 ==> ws[18 + k] == extended[k];
    GasLength(32, r.pmIoBase);
    GasLength(16, Plus16(r.pmIoBase, 4));
    GasLength(32, Plus16(r.pmIoBase, 8));
    GasLength(Gpe0Width(r.gpe0Len), r.gpe0Base);
    FieldAt(t, ws, 196, 20, 112, GasIo(32, r.pmIoBase));
    FieldAt(t, ws, 196, 21, 136, GasIo(16, Plus16(r.pmIoBase, 4)));
    FieldAt(t, ws, 196, 22, 172, GasIo(32, Plus16(r.pmIoBase, 8)));
    FieldAt(t, ws, 196, 23, 184, GasIo(Gpe0Width(r.gpe0Len), r.gpe0Base));
  }

  /** The boot architecture flags of the standard are the two bytes at 109.  The source puts them a byte
      later, so what is read there is 0x0200, without the bit of the 8042. */
  lemma BootArchMisplaced(t: seq<byte>, r: Registers, facs: u64, dsdt: u64)
    requires IsFadt(t, r, facs, dsdt)
    ensures t[110..112] == [2, 0] && FromLe(t[109..111]) == 0x0200
  {
    BootArchByte(t, r, facs, dsdt);
    var bs := t[109..111];
    assert t[110..112][0] == t[110];
    assert bs == [0, 2] && bs[1..] == [2] && bs[1..][1..] == [];
    assert FromLe(bs[1..]) == 2 + 256 * FromLe([]);
  }

  lemma BootArchByte(t: seq<byte>, r: Registers, facs: u64, dsdt: u64)
    requires IsFadt(t, r, facs, dsdt)
    ensures t[110..112] == [2, 0] && t[109] == 0
  {
    hide Le, Filled, BlockFields, ExtendedFields, Flags, GasIo;
    var ws, fixed := Fields(r, facs, dsdt), FixedFields(r);
    SevenBlocks(r, facs, dsdt);
    assert ws[14 + 0] == fixed[7];
    FieldAt(t, ws, 196, 14, 74, Le(2, 2));
    assert Le(2, 2) == [2, 0] by { Two(); }
    ReservedFree(r, facs, dsdt);
    NotCovered(t, ws);
  }

  lemma Two()
    ensures Le(2, 2) == [2, 0]
  {
    assert Le(2, 2) == [2] + Le(0, 1) && Le(0, 1) == [0] + Le(0, 0);
  }

  lemma NotCovered(t: seq<byte>, ws: seq<Write>)
    requires |t| == 244 && Filled(t[HEADER_LEN..], ws, 196) && Free(ws, 73)
    ensures t[109] == 0
  {
    assert t[HEADER_LEN..][73] == t[109];
  }

  lemma ReservedFree(r: Registers, facs: u64, dsdt: u64)
    ensures Free(Fields(r, facs, dsdt), 73)
  {
    hide Le, Flags;
    GasLength(8, r.resetIoBase);
    hide GasIo;
  }

  lemma Shift(t: seq<byte>, from: nat, to: nat)
    requires from <= to && HEADER_LEN + to <= |t|
    ensures t[HEADER_LEN..][from..to] == t[HEADER_LEN + from..HEADER_LEN + to]
  {
  }
}
