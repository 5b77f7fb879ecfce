/** src/acpi/blob.rs: one buffer that tables are appended to, and a list of where they went. */
module Blob {
  import opened Bytes

  /** Offsets and lengths are 32 bits wide, whatever the buffer's size is. */
  datatype TableRef = TableRef(signature: Bytes4, offset: u32, length: u32)

  class AcpiBlobBuilder {
    var data: seq<byte>
    var tables: seq<TableRef>
    const baseAddress: u64

    constructor (baseAddress: u64)
      ensures data == [] && tables == [] && this.baseAddress == baseAddress
    {
      data, tables := [], [];
      this.baseAddress := baseAddress;
    }

    method ReserveFront(len: nat)
      modifies this
      ensures tables == old(tables)
      ensures data == old(data) + Fill(if |old(data)| < len then len - |old(data)| else 0, 1)
    {
      if |data| < len {
        data := data + Fill(len - |data|, 1);
      }
    }

    method AppendTable(signature: Bytes4, bytes: seq<byte>) returns (offset: u32)
      modifies this
      ensures data == old(data) + bytes
      ensures offset == |old(data)| % 0x1_0000_0000
      ensures tables == old(tables) + [TableRef(signature, offset, |bytes| % 0x1_0000_0000)]
    {
      offset := |data| % 0x1_0000_0000;
      var length := |bytes| % 0x1_0000_0000;
      data := data + bytes;
      tables := tables + [TableRef(signature, offset, length)];
    }

    method AppendPlaceholderTable(signature: Bytes4, length: u32) returns (offset: u32)
      modifies this
      ensures data == old(data) + Fill(length, 0)
      ensures offset == |old(data)| % 0x1_0000_0000
      ensures tables == old(tables) + [TableRef(signature, offset, length)]
    {
      offset := |data| % 0x1_0000_0000;
      data := data + Fill(length, 0);
      tables := tables + [TableRef(signature, offset, length)];
    }

    /** `base + offset`, wrapping at 64 bits. */
    function AddressOf(offset: u32): u64 {
      (baseAddress + offset) % 0x1_0000_0000_0000_0000
    }
  }

  // ----- what has been appended -----

  datatype Table = Table(signature: Bytes4, bytes: seq<byte>)

  function Concat(log: seq<Table>): seq<byte> {
    if log == [] then [] else log[0].bytes + Concat(log[1..])
  }

  /** The references recorded for tables appended from `start` on. */
  function Refs(log: seq<Table>, start: nat): (r: seq<TableRef>)
    ensures |r| == |log|
  {
    if log == [] then []
    else
      [TableRef(log[0].signature, start % 0x1_0000_0000, |log[0].bytes| % 0x1_0000_0000)]
      + Refs(log[1..], start + |log[0].bytes|)
  }

  /** The builder holds the padding and these tables, nothing else. */
  ghost predicate Holds(b: AcpiBlobBuilder, front: nat, log: seq<Table>)
    reads b
  {
    b.data == Fill(front, 1) + Concat(log) && b.tables == Refs(log, front)
  }

  lemma {:induction false} Appended(log: seq<Table>, t: Table, start: nat)
    ensures Concat(log + [t]) == Concat(log) + t.bytes
    ensures Refs(log + [t], start) ==
            Refs(log, start) + [TableRef(t.signature, (start
                  + |Concat(log)|) % 0x1_0000_0000, |t.bytes| % 0x1_0000_0000)]
  {
    if log == [] {
      assert log + [t] == [t];
      assert Concat([t]) == t.bytes + [];
    } else {
      assert (log + [t])[1..] == log[1..] + [t];
      Appended(log[1..], t, start + |log[0].bytes|);
    }
  }

  /** Appending a table keeps the ones before it. */
  lemma Appends(data: seq<byte>, tables: seq<TableRef>, front: nat, log: seq<Table>, t: Table)
    requires data == Fill(front, 1) + Concat(log) && tables == Refs(log, front)
    ensures data + t.bytes == Fill(front, 1) + Concat(log + [t])
    ensures tables + [TableRef(t.signature, |data| % 0x1_0000_0000, |t.bytes| % 0x1_0000_0000)] == Refs(log
          + [t], front)
  {
    Appended(log, t, front);
    assert Fill(front, 1) + Concat(log) + t.bytes == Fill(front, 1) + (Concat(log) + t.bytes);
  }

  // ----- tiling -----

  /** The tables lie end to end from `start` to `end`. */
  predicate Tiles(tables: seq<TableRef>, start: nat, end: nat)
    decreases tables
  {
    if tables == [] then start == end
    else tables[0].offset == start && Tiles(tables[1..], start + tables[0].length, end)
  }

  /** The bytes a reference stands for. */
  function Slice(data: seq<byte>, t: TableRef): seq<byte> {
    if t.offset + t.length <= |data| then data[t.offset..t.offset + t.length] else []
  }

  /** A reference stands for exactly this table. */
  predicate Stands(data: seq<byte>, r: TableRef, t: Table) {
    r.signature == t.signature && r.length == |t.bytes| && r.offset + r.length <= |data| && Slice(data, r) == t.bytes
  }

  predicate AllStand(data: seq<byte>, refs: seq<TableRef>, log: seq<Table>) {
    |refs| == |log| && forall k :: 0 <= k < |log| ==> Stands(data, refs[k], log[k])
  }

  /** As long as the buffer stays below 4 GiB, the recorded tables tile it from the padding to the
      end, and each reference stands for exactly the bytes that were appended under it. */
  lemma {:induction false} Tiling(data: seq<byte>, start: nat, log: seq<Table>)
    requires |data| < 0x1_0000_0000 && start + |Concat(log)| == |data| && data[start..] == Concat(log)
    ensures Tiles(Refs(log, start), start, |data|)
    ensures AllStand(data, Refs(log, start), log)
    decreases |log|
  {
    if log != [] {
      hide AllStand, Stands, Concat;
      FirstStands(data, start, log);
      Tiling(data, start + |log[0].bytes|, log[1..]);
      var refs := Refs(log, start);
      assert refs[1..] == Refs(log[1..], start + |log[0].bytes|);
      OneMoreStands(data, refs, log);
    }
  }

  lemma OneMoreStands(data: seq<byte>, refs: seq<TableRef>, log: seq<Table>)
    requires |refs| == |log| > 0 && Stands(data, refs[0], log[0]) && AllStand(data, refs[1..], log[1..])
    ensures AllStand(data, refs, log)
  {
    hide Stands;
    forall k | 0 <= k < |log|
      ensures Stands(data, refs[k], log[k])
    {
      if k > 0 {
        assert Stands(data, refs[1..][k - 1], log[1..][k - 1]);
      }
    }
  }

  lemma FirstStands(data: seq<byte>, start: nat, log: seq<Table>)
    requires log != [] && |data| < 0x1_0000_0000
    requires start + |Concat(log)| == |data| && data[start..] == Concat(log)
    ensures var r, next := Refs(log, start)[0], start + |log[0].bytes|;
            r.offset == start && Stands(data, r, log[0])
            && next + |Concat(log[1..])| == |data| && data[next..] == Concat(log[1..])
  {
    var bytes, rest := log[0].bytes, Concat(log[1..]);
    assert data[start..][..|bytes|] == bytes && data[start..][|bytes|..] == rest;
    assert data[start..][..|bytes|] == data[start..start + |bytes|];
    assert data[start..][|bytes|..] == data[start + |bytes|..];
  }

  /** No two tables overlap. */
  lemma {:induction false} TilesApart(tables: seq<TableRef>, start: nat, end: nat, i: nat, j: nat)
    requires Tiles(tables, start, end) && i < j < |tables|
    ensures start <= tables[i].offset && tables[i].offset + tables[i].length <= tables[j].offset
    decreases tables
  {
    if i == 0 {
      TilesFrom(tables[1..], start + tables[0].length, end, j - 1);
    } else {
      TilesApart(tables[1..], start + tables[0].length, end, i - 1, j - 1);
    }
  }

  lemma {:induction false} TilesFrom(tables: seq<TableRef>, start: nat, end: nat, j: nat)
    requires Tiles(tables, start, end) && j < |tables|
    ensures start <= tables[j].offset
    decreases tables
  {
    if j > 0 {
      TilesFrom(tables[1..], start + tables[0].length, end, j - 1);
    }
  }
}
