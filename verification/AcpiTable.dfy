/** src/acpi/checksum.rs, header.rs, rsdt.rs and rsdp.rs: tables with a header, a length and a
    checksum. */
module AcpiTable {
  import opened Bytes

  type Bytes6 = s: seq<byte> | |s| == 6 witness Fill(6, 0)
  type Bytes8 = s: seq<byte> | |s| == 8 witness Fill(8, 0)

  const HEADER_LEN := 36

  // ----- checksum.rs -----

  /** `fold` with wrapping_add. */
  function WrappingSum(acc: byte, bytes: seq<byte>): (r: byte)
    ensures r == (acc + Sum(bytes)) % 256
    decreases bytes
  {
    if bytes == [] then acc
    else
      var a: int := acc;
      WrappingSum((a + bytes[0]) % 256, bytes[1..])
  }

  /** acpi_checksum: what must be added to make the sum of the bytes 0. */
  function AcpiChecksum(bytes: seq<byte>): (c: byte)
    ensures (Sum(bytes) + c) % 256 == 0
  {
    (256 - WrappingSum(0, bytes)) % 256
  }

  /** Putting the checksum where a 0 was makes the whole sum 0. */
  lemma ChecksumZeroesSum(bytes: seq<byte>, at: nat)
    requires at < |bytes| && bytes[at] == 0
    ensures Sum(bytes[at := AcpiChecksum(bytes)]) % 256 == 0
  {
    SumUpdate(bytes, at, AcpiChecksum(bytes));
  }

  // ----- header.rs -----

  datatype AcpiHeader = AcpiHeader(signature: Bytes4, revision: byte, oemId: Bytes6, oemTableId: Bytes8,
                                   oemRevision: u32, creatorId: Bytes4, creatorRevision: u32)

  /** copy_from_slice into a part of an array. */
  method CopyFrom(out: array<byte>, at: nat, src: seq<byte>)
    requires at + |src| <= out.Length
    modifies out
    ensures out[..at + |src|] == old(out[..at]) + src
    ensures out[at + |src|..] == old(out[at + |src|..])
  {
    for i := 0 to |src|
      invariant out[..at] == old(out[..at]) && out[at..at + i] == src[..i]
      invariant out[at + i..] == old(out[at + i..])
    {
      out[at + i] := src[i];
      assert src[..i + 1] == src[..i] + [src[i]];
    }
    assert out[..at + |src|] == out[..at] + out[at..at + |src|];
  }

  /** The header of a table of `totalLen` bytes before its checksum is known. */
  function HeaderBytes(h: AcpiHeader, totalLen: u32): (r: seq<byte>)
    ensures |r| == HEADER_LEN && r[9] == 0
  {
    h.signature + Le(totalLen, 4) + [h.revision, 0] + h.oemId + h.oemTableId + Le(h.oemRevision, 4)
    + h.creatorId + Le(h.creatorRevision, 4)
  }

  method EncodeHeader(h: AcpiHeader, totalLen: u32) returns (out: array<byte>)
    ensures fresh(out) && out[..] == HeaderBytes(h, totalLen)
  {
    hide Le;
    out := new byte[HEADER_LEN](_ => 0);
    CopyFrom(out, 0, h.signature);
    CopyFrom(out, 4, Le(totalLen, 4));
    CopyFrom(out, 8, [h.revision]);
    CopyFrom(out, 9, [0]);
    CopyFrom(out, 10, h.oemId);
    CopyFrom(out, 16, h.oemTableId);
    CopyFrom(out, 24, Le(h.oemRevision, 4));
    CopyFrom(out, 28, h.creatorId);
    CopyFrom(out, 32, Le(h.creatorRevision, 4));
    assert out[..36] == out[..];
    assert [h.revision] + [0] == [h.revision, 0];
  }

  /** `t` is a table: its fields are in their places, its length field counts it (a length below
      4 GiB), and its bytes add up to 0. */
  predicate IsTable(t: seq<byte>, h: AcpiHeader, body: seq<byte>) {
    |t| == HEADER_LEN + |body|
    && t[..4] == h.signature && t[4..8] == Le(|t| % 0x1_0000_0000, 4) && t[8] == h.revision
    && t[10..16] == h.oemId && t[16..24] == h.oemTableId && t[24..28] == Le(h.oemRevision, 4)
    && t[28..32] == h.creatorId && t[32..36] == Le(h.creatorRevision, 4)
    && t[36..] == body
    && Sum(t) % 256 == 0
  }

  lemma HeaderFields(h: AcpiHeader, totalLen: u32, t: seq<byte>)
    requires |t| >= 36 && forall i :: 0 <= i < 36 && i != 9 ==> t[i] == HeaderBytes(h, totalLen)[i]
    ensures t[..4] == h.signature && t[4..8] == Le(totalLen, 4) && t[8] == h.revision
    ensures t[10..16] == h.oemId && t[16..24] == h.oemTableId && t[24..28] == Le(h.oemRevision, 4)
    ensures t[28..32] == h.creatorId && t[32..36] == Le(h.creatorRevision, 4)
  {
    hide Le;
    var r := HeaderBytes(h, totalLen);
    var s0 := h.signature + Le(totalLen, 4) + [h.revision, 0];
    assert r[..10] == s0 && r[10..16] == h.oemId && r[16..24] == h.oemTableId;
    assert r[24..28] == Le(h.oemRevision, 4) && r[28..32] == h.creatorId;
    assert r[32..] == Le(h.creatorRevision, 4) && r[32..36] == r[32..];
    assert t[32..36] == r[32..36];
    assert s0[..4] == h.signature && s0[4..8] == Le(totalLen, 4) && s0[8] == h.revision;
  }

  /** finalize_table: header, body, then byte 9 patched with the checksum of the whole. */
  method FinalizeTable(h: AcpiHeader, body: seq<byte>) returns (out: seq<byte>)
    ensures IsTable(out, h, body)
  {
    hide Le, HeaderBytes, AcpiChecksum, Sum;
    var totalLen := (HEADER_LEN + |body|) % 0x1_0000_0000;
    var header := EncodeHeader(h, totalLen);
    out := header[..] + body;
    ChecksumZeroesSum(out, 9);
    out := out[9 := AcpiChecksum(out)];
    HeaderFields(h, totalLen, out);
    assert out[36..] == body;
  }

  // ----- rsdt.rs and rsdp.rs -----

  /** The fields of the configuration that every header repeats. */
  datatype Ids = Ids(oemId: Bytes6, oemTableId: Bytes8, oemRevision: u32, creatorId: Bytes4, creatorRevision: u32)

  function Header(ids: Ids, signature: Bytes4, revision: byte): AcpiHeader {
    AcpiHeader(signature, revision, ids.oemId, ids.oemTableId, ids.oemRevision, ids.creatorId, ids.creatorRevision)
  }

  const RSDT_SIGNATURE: Bytes4 := [0x52, 0x53, 0x44, 0x54]
  const RSD_PTR: Bytes8 := [0x52, 0x53, 0x44, 0x20, 0x50, 0x54, 0x52, 0x20]

  /** Slot `j` of a table of 32-bit addresses. */
  function Slot32(t: seq<byte>, j: nat): seq<byte>
    requires HEADER_LEN + 4 * j + 4 <= |t|
  {
    t[HEADER_LEN + 4 * j..HEADER_LEN + 4 * j + 4]
  }

  method BuildRsdt(ids: Ids, entries: seq<u64>) returns (t: seq<byte>)
    ensures |t| == HEADER_LEN + 4 * |entries| && IsTable(t, Header(ids, RSDT_SIGNATURE, 1), t[HEADER_LEN..])
    ensures forall j :: 0 <= j < |entries| ==> Slot32(t, j) == Le(entries[j] % 0x1_0000_0000, 4)
  {
    hide Le, Sum;
    var body: seq<byte> := [];
    for i := 0 to |entries|
      invariant |body| == 4 * i
      invariant forall j :: 0 <= j < i ==> body[4 * j..4 * j + 4] == Le(entries[j] % 0x1_0000_0000, 4)
    {
      ghost var before := body;
      body := body + Le(entries[i] % 0x1_0000_0000, 4);
      assert body[4 * i..4 * i + 4] == Le(entries[i] % 0x1_0000_0000, 4);
      forall j | 0 <= j < i
        ensures body[4 * j..4 * j + 4] == Le(entries[j] % 0x1_0000_0000, 4)
      {
        assert body[4 * j..4 * j + 4] == before[4 * j..4 * j + 4];
      }
    }
    t := FinalizeTable(Header(ids, RSDT_SIGNATURE, 1), body);
    assert forall j :: 0 <= j < |entries| ==> Slot32(t, j) == t[HEADER_LEN..][4 * j..4 * j + 4];
  }

  method BuildRsdp(ids: Ids, rsdtAddress: u64) returns (rsdp: seq<byte>)
    ensures |rsdp| == 20 && rsdp[..8] == Ascii("RSD PTR ") && rsdp[9..15] == ids.oemId && rsdp[15] == 0
    ensures rsdp[16..] == Le(rsdtAddress % 0x1_0000_0000, 4)
    ensures Sum(rsdp) % 256 == 0
  {
    hide Le, AcpiChecksum, Sum;
    rsdp := RSD_PTR;
    rsdp := rsdp + [0];
    rsdp := rsdp + ids.oemId;
    rsdp := rsdp + [0];
    rsdp := rsdp + Le(rsdtAddress % 0x1_0000_0000, 4);
    assert |rsdp| == 20;
    ChecksumZeroesSum(rsdp, 8);
    rsdp := rsdp[8 := AcpiChecksum(rsdp)];
    assert rsdp[9..15] == ids.oemId && rsdp[..8] == RSD_PTR;
    assert Ascii("RSD PTR ") == RSD_PTR;
  }
}
