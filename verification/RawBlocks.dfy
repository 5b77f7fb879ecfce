/** Scope::raw and Device::raw of src/acpi/aml.rs: blocks made from children that are already
    bytes.  Scope::raw makes room for the package length inside its vector. */
module RawBlocks {
  import opened Bytes
  import opened Terms
  import Names
  import PkgLength

  /** Copies `bytes` into the first part of a longer vector and fills the rest. */
  method Resize(bytes: array<byte>, len: nat, fill: byte) returns (longer: array<byte>)
    requires bytes.Length <= len
    ensures fresh(longer) && longer[..] == bytes[..] + Fill(len - bytes.Length, fill)
  {
    longer := new byte[len](_ => fill);
    for i := 0 to bytes.Length
      invariant longer[..i] == bytes[..i]
      invariant forall j :: i <= j < len ==> longer[j] == fill
    {
      longer[i] := bytes[i];
    }
    assert longer[..] == longer[..bytes.Length] + longer[bytes.Length..];
  }

  /** `copy_within(lo..hi, dest)`: an overlapping move towards the end, highest byte first. */
  method CopyWithin(bytes: array<byte>, lo: nat, hi: nat, dest: nat)
    requires lo <= hi && lo <= dest && dest + (hi - lo) <= bytes.Length
    modifies bytes
    ensures bytes[..] == old(bytes[..dest]) + old(bytes[lo..hi]) + old(bytes[dest + (hi - lo)..])
  {
    var k := hi - lo;
    while k > 0
      invariant 0 <= k <= hi - lo
      invariant forall j :: 0 <= j < dest + k ==> bytes[j] == old(bytes[j])
      invariant forall j :: dest + k <= j < dest + (hi - lo) ==> bytes[j] == old(bytes[j - dest + lo])
      invariant forall j :: dest + (hi - lo) <= j < bytes.Length ==> bytes[j] == old(bytes[j])
    {
      k := k - 1;
      bytes[dest + k] := bytes[lo + k];
    }
  }

  method CopyFromSlice(bytes: array<byte>, at: nat, s: seq<byte>)
    requires at + |s| <= bytes.Length
    modifies bytes
    ensures bytes[..] == old(bytes[..at]) + s + old(bytes[at + |s|..])
  {
    for i := 0 to |s|
      invariant bytes[..at] == old(bytes[..at])
      invariant forall j :: 0 <= j < i ==> bytes[at + j] == s[j]
      invariant forall j :: at + i <= j < bytes.Length ==> bytes[j] == old(bytes[j])
    {
      bytes[at + i] := s[i];
    }
  }

  /** Moves everything after the opcode over and copies the package length in. */
  method InsertLength(bytes: array<byte>, pkgLength: seq<byte>) returns (raw: array<byte>)
    requires bytes.Length >= 1
    ensures fresh(raw) && raw[..] == [bytes[0]] + pkgLength + bytes[1..]
  {
    var n, m := bytes.Length, |pkgLength|;
    raw := Resize(bytes, n + m, 0xFF);
    assert raw[1..n] == bytes[1..] && raw[..1] == [bytes[0]];
    CopyWithin(raw, 1, n, m + 1);
    assert raw[m + 1..] == bytes[1..] && raw[..1] == [bytes[0]];
    CopyFromSlice(raw, 1, pkgLength);
  }

  method ToArray(vec: seq<byte>) returns (bytes: array<byte>)
    ensures fresh(bytes) && bytes[..] == vec
  {
    bytes := new byte[|vec|](i requires 0 <= i < |vec| => vec[i]);
  }

  /** Scope::raw: for children that are the bytes of some terms, the bytes of their Scope. */
  method ScopeRaw(path: Path, children: seq<byte>) returns (raw: array<byte>)
    ensures raw[..] == Pkg([0x10], Names.Encode(path) + children)
    ensures forall ts :: EncodeAll(ts) == children ==> raw[..] == Encode(Scope(path, ts))
  {
    hide EncodeAll, PkgLength.Encode, Names.Encode;
    var sink := new ByteVec();
    sink.Push(0x10);
    Names.PathToAmlBytes(path, sink);
    sink.Extend(children);
    ghost var content := Names.Encode(path) + children;
    assert sink.data == [0x10] + content;
    var bytes := ToArray(sink.data);
    var pkgLength := PkgLength.CreatePkgLength(bytes.Length - 1, true);
    raw := InsertLength(bytes, pkgLength);
    assert bytes[1..] == content;
  }

  /** Device::raw gathers the body apart and needs no move. */
  method DeviceRaw(path: Path, children: seq<byte>) returns (raw: seq<byte>)
    ensures raw == Pkg([0x5B, 0x82], Names.Encode(path) + children)
    ensures forall ts :: EncodeAll(ts) == children ==> raw == Encode(Device(path, ts))
  {
    hide EncodeAll, PkgLength.Encode, Names.Encode;
    var body := new ByteVec();
    Names.PathToAmlBytes(path, body);
    body.Extend(children);
    assert body.data == Names.Encode(path) + children;
    var pkgLength := PkgLength.CreatePkgLength(|body.data|, true);
    raw := [0x5B];
    raw := raw + [0x82];
    raw := raw + pkgLength;
    raw := raw + body.data;
    assert raw == Pkg([0x5B, 0x82], body.data);
  }
}
