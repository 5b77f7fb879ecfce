/** insert_ivhd and the IVHD block of build_amd_iommu (acpi-build.c): a tree of PCI buses becomes a
    flat list of device entries (section 5.2 of the AMD IOMMU specification). */
module Ivhd {
  import opened Bytes

  /** A device on a bus; for a bridge, its secondary and subordinate bus numbers, whether the
      secondary bus is PCI Express, whether the bridge is a PCIe-to-PCI bridge, and what is on the
      secondary bus. */
  datatype Dev =
    | Endpoint(devfn: byte)
    | Bridge(devfn: byte, sec: byte, sub: byte, express: bool, pcieToPci: bool, children: seq<Dev>)

  function Bdf(bus: byte, devfn: byte): u16 { bus * 256 + devfn }

  /** A device entry as the firmware reads it: one device, a range of devices, or a range of devices
      that all present one alias. */
  datatype Entry = Select(id: u16) | Range(first: u16, last: u16) | AliasRange(first: u16, last: u16, alias: u16)

  // ----- insert_ivhd -----

  function Insert(bus: byte, dev: Dev): seq<Entry>
    decreases dev, 1
  {
    [Select(Bdf(bus, dev.devfn))] + if dev.Bridge? then Behind(bus, dev) else []
  }

  /** What follows the Select entry of a bridge. */
  function Behind(bus: byte, dev: Dev): seq<Entry>
    requires dev.Bridge?
    decreases dev, 0
  {
    if dev.express then
      if dev.sec == dev.sub then [Range(Bdf(dev.sec, 0), Bdf(dev.sub, 255))] else Walk(dev.sec, dev.children)
    else [AliasRange(Bdf(dev.sec, 0), Bdf(dev.sub, 255), if dev.pcieToPci then Bdf(dev.sec, 0) else Bdf(bus,
          dev.devfn))]
  }

  /** pci_for_each_device */
  function Walk(bus: byte, devs: seq<Dev>): seq<Entry>
    decreases devs
  {
    if devs == [] then [] else Insert(bus, devs[0]) + Walk(bus, devs[1..])
  }

  // ----- what the entries mean -----

  predicate Covers(e: Entry, id: u16) {
    match e case Select(d) => id == d case Range(a, b) => a <= id <= b case AliasRange(a, b, _) => a <= id <= b
  }

  function Hit(e: Entry, id: u16): seq<u16> {
    if Covers(e, id) then [if e.AliasRange? then e.alias else id] else []
  }

  /** The requester ids a device gets, one for each entry that covers it. */
  function LookUp(es: seq<Entry>, id: u16): seq<u16> {
    if es == [] then [] else Hit(es[0], id) + LookUp(es[1..], id)
  }

  lemma {:induction false} LookUpAppend(xs: seq<Entry>, ys: seq<Entry>, id: u16)
    ensures LookUp(xs + ys, id) == LookUp(xs, id) + LookUp(ys, id)
  {
    hide Hit;
    if xs == [] {
      assert xs + ys == ys;
    } else {
      assert (xs + ys)[1..] == xs[1..] + ys;
      LookUpAppend(xs[1..], ys, id);
    }
  }

  // ----- the topology -----

  /** Sibling devices have different devfns, and their bus ranges do not meet. */
  predicate Separate(d: Dev, e: Dev) {
    d.devfn != e.devfn && (d.Bridge? && e.Bridge? ==> d.sub < e.sec || e.sub < d.sec)
  }

  /** Bus numbers nest: below a bus, every bridge has its [secondary, subordinate] range within what
      the bus may use. */
  predicate Nested(bus: byte, devs: seq<Dev>, hi: byte)
    decreases devs, 0
  {
    (forall i, j :: 0 <= i < j < |devs| ==> Separate(devs[i], devs[j]))
    && forall i :: 0 <= i < |devs| ==> NestedDev(bus, devs[i], hi)
  }

  predicate NestedDev(bus: byte, dev: Dev, hi: byte)
    decreases dev, 1
  {
    dev.Bridge? ==> bus < dev.sec <= dev.sub <= hi && Nested(dev.sec, dev.children, dev.sub)
  }

  /** A device is named by the indices on the way to it. */
  predicate IsPath(devs: seq<Dev>, path: seq<nat>) {
    path != [] && path[0] < |devs|
    && (|path| > 1 ==> devs[path[0]].Bridge? && IsPath(devs[path[0]].children, path[1..]))
  }

  /** Its own id. */
  function IdOf(bus: byte, devs: seq<Dev>, path: seq<nat>): u16
    requires IsPath(devs, path)
    decreases |path|
  {
    var d := devs[path[0]];
    if |path| == 1 then Bdf(bus, d.devfn) else IdOf(d.sec, d.children, path[1..])
  }

  /** The id its requests carry at the IOMMU: its own, unless a bridge to a conventional bus is on
      the way, and then what the outermost such bridge puts in. */
  function RequesterOf(bus: byte, devs: seq<Dev>, path: seq<nat>): u16
    requires IsPath(devs, path)
    decreases |path|
  {
    var d := devs[path[0]];
    if |path| == 1 then Bdf(bus, d.devfn)
    else if d.express then RequesterOf(d.sec, d.children, path[1..])
    else if d.pcieToPci then Bdf(d.sec, 0)
    else Bdf(bus, d.devfn)
  }

  // ----- zones -----

  /** The ids the entries of a device can cover. */
  predicate Zone(bus: byte, dev: Dev, id: u16) {
    id == Bdf(bus, dev.devfn) || (dev.Bridge? && Bdf(dev.sec, 0) <= id <= Bdf(dev.sub, 255))
  }

  lemma {:induction false} OutsideZone(bus: byte, dev: Dev, hi: byte, id: u16)
    requires NestedDev(bus, dev, hi) && !Zone(bus, dev, id)
    ensures LookUp(Insert(bus, dev), id) == []
    decreases dev, 0
  {
    LookUpDevice(bus, dev, id);
    if dev.Bridge? && dev.express && dev.sec != dev.sub {
      OutsideAll(dev.sec, dev.children, dev.sub, id);
    } else if dev.Bridge? {
      LookUpOne(Behind(bus, dev)[0], id);
    }
  }

  lemma LookUpOne(e: Entry, id: u16)
    ensures LookUp([e], id) == if Covers(e, id) then [if e.AliasRange? then e.alias else id] else []
  {
  }

  lemma LookUpDevice(bus: byte, dev: Dev, id: u16)
    ensures LookUp(Insert(bus, dev), id)
            == (if id == Bdf(bus, dev.devfn) then [id] else [])
                  + if dev.Bridge? then LookUp(Behind(bus, dev), id) else []
  {
    LookUpAppend([Select(Bdf(bus, dev.devfn))], if dev.Bridge? then Behind(bus, dev) else [], id);
    LookUpOne(Select(Bdf(bus, dev.devfn)), id);
  }

  /** Nothing on a bus covers an id that belongs to neither the bus nor the buses below it. */
  lemma {:induction false} OutsideAll(bus: byte, devs: seq<Dev>, hi: byte, id: u16)
    requires Nested(bus, devs, hi) && !(Bdf(bus, 0) <= id <= Bdf(hi, 255))
    requires bus <= hi
    ensures LookUp(Walk(bus, devs), id) == []
    decreases devs
  {
    if devs != [] {
      assert NestedDev(bus, devs[0], hi);
      OutsideZone(bus, devs[0], hi, id);
      NestedTail(bus, devs, hi);
      OutsideAll(bus, devs[1..], hi, id);
      LookUpAppend(Insert(bus, devs[0]), Walk(bus, devs[1..]), id);
    }
  }

  lemma NestedTail(bus: byte, devs: seq<Dev>, hi: byte)
    requires Nested(bus, devs, hi) && devs != []
    ensures Nested(bus, devs[1..], hi)
  {
    forall i | 0 <= i < |devs[1..]|
      ensures NestedDev(bus, devs[1..][i], hi)
    {
      assert NestedDev(bus, devs[i + 1], hi);
    }
  }

  /** Siblings have disjoint zones. */
  lemma ZonesApart(bus: byte, d: Dev, e: Dev, hi: byte, id: u16)
    requires Separate(d, e) && NestedDev(bus, d, hi) && NestedDev(bus, e, hi) && Zone(bus, d, id)
    ensures !Zone(bus, e, id)
  {
  }

  /** Only the device whose zone an id is in has entries for it. */
  lemma {:induction false} OnlyOne(bus: byte, devs: seq<Dev>, hi: byte, k: nat, id: u16)
    requires Nested(bus, devs, hi) && k < |devs| && Zone(bus, devs[k], id)
    ensures LookUp(Walk(bus, devs), id) == LookUp(Insert(bus, devs[k]), id)
    decreases devs
  {
    var first, rest := Insert(bus, devs[0]), Walk(bus, devs[1..]);
    LookUpAppend(first, rest, id);
    NestedTail(bus, devs, hi);
    assert NestedDev(bus, devs[0], hi) && NestedDev(bus, devs[k], hi);
    if k == 0 {
      NoneLater(bus, devs, hi, id);
    } else {
      assert Separate(devs[0], devs[k]);
      ZonesApart(bus, devs[k], devs[0], hi, id);
      OutsideZone(bus, devs[0], hi, id);
      OnlyOne(bus, devs[1..], hi, k - 1, id);
    }
  }

  lemma NoneLater(bus: byte, devs: seq<Dev>, hi: byte, id: u16)
    requires devs != [] && Nested(bus, devs, hi) && Zone(bus, devs[0], id)
    ensures LookUp(Walk(bus, devs[1..]), id) == []
  {
    NestedTail(bus, devs, hi);
    forall i | 0 <= i < |devs[1..]|
      ensures !Zone(bus, devs[1..][i], id)
    {
      assert NestedDev(bus, devs[0], hi) && NestedDev(bus, devs[i + 1], hi);
      ZonesApart(bus, devs[0], devs[i + 1], hi, id);
    }
    NoneInZone(bus, devs[1..], hi, id);
  }

  lemma {:induction false} NoneInZone(bus: byte, devs: seq<Dev>, hi: byte, id: u16)
    requires Nested(bus, devs, hi) && forall i :: 0 <= i < |devs| ==> !Zone(bus, devs[i], id)
    ensures LookUp(Walk(bus, devs), id) == []
    decreases devs
  {
    if devs != [] {
      assert NestedDev(bus, devs[0], hi);
      OutsideZone(bus, devs[0], hi, id);
      NestedTail(bus, devs, hi);
      NoneInZone(bus, devs[1..], hi, id);
      LookUpAppend(Insert(bus, devs[0]), Walk(bus, devs[1..]), id);
    }
  }

  // ----- the theorems -----

  /** Where a device on a path lies. */
  lemma {:induction false} PathInZone(bus: byte, devs: seq<Dev>, hi: byte, path: seq<nat>)
    requires Nested(bus, devs, hi) && IsPath(devs, path) && bus <= hi
    ensures Zone(bus, devs[path[0]], IdOf(bus, devs, path))
    ensures Bdf(bus, 0) <= IdOf(bus, devs, path) <= Bdf(hi, 255)
    decreases |path|
  {
    assert NestedDev(bus, devs[path[0]], hi);
    if |path| > 1 {
      var d := devs[path[0]];
      PathInZone(d.sec, d.children, d.sub, path[1..]);
    }
  }

  /** IVHD coverage: every device of a properly numbered tree is covered by exactly one entry, and
      that entry gives it the id its requests carry. */
  lemma {:induction false} Coverage(bus: byte, devs: seq<Dev>, hi: byte, path: seq<nat>)
    requires Nested(bus, devs, hi) && IsPath(devs, path) && bus <= hi
    ensures LookUp(Walk(bus, devs), IdOf(bus, devs, path)) == [RequesterOf(bus, devs, path)]
    decreases |path|
  {
    var d := devs[path[0]];
    var id := IdOf(bus, devs, path);
    assert NestedDev(bus, d, hi);
    PathInZone(bus, devs, hi, path);
    OnlyOne(bus, devs, hi, path[0], id);
    LookUpDevice(bus, d, id);
    if |path| == 1 {
      if d.Bridge? {
        BehindMisses(bus, d, hi, id);
      }
    } else {
      PathInZone(d.sec, d.children, d.sub, path[1..]);
      if d.express && d.sec != d.sub {
        Coverage(d.sec, d.children, d.sub, path[1..]);
      } else {
        LookUpOne(Behind(bus, d)[0], id);
        if d.express {
          NoBridgeOnLeafBus(d.sec, d.children, path[1..]);
        }
      }
    }
  }

  /** What stands behind a bridge does not cover the bridge's own bus. */
  lemma BehindMisses(bus: byte, d: Dev, hi: byte, id: u16)
    requires d.Bridge? && NestedDev(bus, d, hi) && id < Bdf(d.sec, 0)
    ensures LookUp(Behind(bus, d), id) == []
  {
    if d.express && d.sec != d.sub {
      OutsideAll(d.sec, d.children, d.sub, id);
    } else {
      LookUpOne(Behind(bus, d)[0], id);
    }
  }

  lemma NoBridgeOnLeafBus(bus: byte, devs: seq<Dev>, path: seq<nat>)
    requires Nested(bus, devs, bus) && IsPath(devs, path)
    ensures |path| == 1
  {
    assert NestedDev(bus, devs[path[0]], bus);
  }

  /** No id at all, of a present device or not, is covered twice: a Select entry and a range never
      meet. */
  lemma {:induction false} AtMostOnce(bus: byte, devs: seq<Dev>, hi: byte, id: u16)
    requires Nested(bus, devs, hi) && bus <= hi
    ensures |LookUp(Walk(bus, devs), id)| <= 1
    decreases devs, 1
  {
    if forall k :: 0 <= k < |devs| ==> !Zone(bus, devs[k], id) {
      NoneInZone(bus, devs, hi, id);
    } else {
      var k :| 0 <= k < |devs| && Zone(bus, devs[k], id);
      OnlyOne(bus, devs, hi, k, id);
      assert NestedDev(bus, devs[k], hi);
      DeviceAtMostOnce(bus, devs[k], hi, id);
    }
  }

  lemma {:induction false} DeviceAtMostOnce(bus: byte, dev: Dev, hi: byte, id: u16)
    requires NestedDev(bus, dev, hi)
    ensures |LookUp(Insert(bus, dev), id)| <= 1
    decreases dev, 0
  {
    LookUpDevice(bus, dev, id);
    if dev.Bridge? {
      if id < Bdf(dev.sec, 0) {
        BehindMisses(bus, dev, hi, id);
      } else if dev.express && dev.sec != dev.sub {
        AtMostOnce(dev.sec, dev.children, dev.sub, id);
      } else {
        LookUpOne(Behind(bus, dev)[0], id);
      }
    }
  }

  // ----- several host bridges -----

  /** A host bridge, its root bus, and the last bus number below it. */
  datatype Host = Host(busNum: byte, last: byte, bypass: bool, devs: seq<Dev>)

  /** The host bridges that do not bypass the IOMMU, walked in turn. */
  function WalkHosts(hosts: seq<Host>): seq<Entry> {
    if hosts == [] then []
    else (if hosts[0].bypass then [] else Walk(hosts[0].busNum, hosts[0].devs)) + WalkHosts(hosts[1..])
  }

  predicate HostsNested(hosts: seq<Host>) {
    (forall i :: 0 <= i < |hosts| ==>
       hosts[i].busNum <= hosts[i].last && Nested(hosts[i].busNum, hosts[i].devs, hosts[i].last))
    && forall i, j :: 0 <= i < j < |hosts| ==> hosts[i].last < hosts[j].busNum || hosts[j].last < hosts[i].busNum
  }

  predicate HostZone(h: Host, id: u16) { Bdf(h.busNum, 0) <= id <= Bdf(h.last, 255) }

  lemma {:induction false} NoHost(hosts: seq<Host>, id: u16)
    requires HostsNested(hosts) && forall i :: 0 <= i < |hosts| ==> !HostZone(hosts[i], id)
    ensures LookUp(WalkHosts(hosts), id) == []
  {
    if hosts != [] {
      var h := hosts[0];
      assert !HostZone(h, id);
      OutsideAll(h.busNum, h.devs, h.last, id);
      LookUpAppend(if h.bypass then [] else Walk(h.busNum, h.devs), WalkHosts(hosts[1..]), id);
      NoHost(hosts[1..], id);
    }
  }

  /** The whole list: a device below host `k` is covered once, with its requester id, unless the host
      bypasses the IOMMU, and then it is not covered at all. */
  lemma {:induction false} HostCoverage(hosts: seq<Host>, k: nat, path: seq<nat>)
    requires HostsNested(hosts) && k < |hosts| && IsPath(hosts[k].devs, path)
    ensures var h := hosts[k];
            LookUp(WalkHosts(hosts), IdOf(h.busNum, h.devs, path))
            == if h.bypass then [] else [RequesterOf(h.busNum, h.devs, path)]
  {
    hide Walk, Nested, IdOf, RequesterOf, Hit, IsPath, Bdf;
    var h, first := hosts[k], hosts[0];
    var id := IdOf(h.busNum, h.devs, path);
    PathInZone(h.busNum, h.devs, h.last, path);
    LookUpAppend(if first.bypass then [] else Walk(first.busNum, first.devs), WalkHosts(hosts[1..]), id);
    if k == 0 {
      Coverage(h.busNum, h.devs, h.last, path);
      forall i | 0 <= i < |hosts[1..]|
        ensures !HostZone(hosts[1..][i], id)
      {
        HostZonesApart(hosts[0], hosts[i + 1], id);
      }
      NoHost(hosts[1..], id);
    } else {
      HostZonesApart(hosts[k], hosts[0], id);
      OutsideAll(first.busNum, first.devs, first.last, id);
      HostCoverage(hosts[1..], k - 1, path);
    }
  }

  lemma HostZonesApart(g: Host, h: Host, id: u16)
    requires (g.last < h.busNum || h.last < g.busNum) && HostZone(g, id)
    ensures !HostZone(h, id)
  {
  }

  // ----- the bytes -----

  /** A four-byte entry: the id above the type. */
  function Word(id: u16, kind: byte): (r: seq<byte>)
    ensures |r| == 4
  {
    Le(id * 256 + kind, 4)
  }

  function Encode(e: Entry): seq<byte> {
    match e
    case Select(id) => Word(id, 0x2)
    case Range(first, last) => Word(first, 0x3) + Word(last, 0x4)
    case AliasRange(first, last, alias) => Word(first, 0x43) + Word(alias, 0x0) + Word(last, 0x4)
  }

  function EncodeAll(es: seq<Entry>): seq<byte> {
    if es == [] then [] else Encode(es[0]) + EncodeAll(es[1..])
  }

  function IdAt(bs: seq<byte>, at: nat): u16
    requires at + 4 <= |bs|
  {
    var low: int, high: int := bs[at + 1], bs[at + 2];
    low + 256 * high
  }

  /** The firmware's reading of the entries. */
  function Parse(bs: seq<byte>): Option<seq<Entry>>
    decreases |bs|
  {
    if bs == [] then Some([])
    else if |bs| < 4 then None
    else if bs[0] == 0x2 then Push(Select(IdAt(bs, 0)), Parse(bs[4..]))
    else if bs[0] == 0x3 && |bs| >= 8 && bs[4] == 0x4 then Push(Range(IdAt(bs, 0), IdAt(bs, 4)), Parse(bs[8..]))
    else if bs[0] == 0x43 && |bs| >= 12 && bs[4] == 0x0 && bs[8] == 0x4 then
      Push(AliasRange(IdAt(bs, 0), IdAt(bs, 8), IdAt(bs, 4)), Parse(bs[12..]))
    else None
  }

  function Push(e: Entry, rest: Option<seq<Entry>>): Option<seq<Entry>> {
    match rest case None => None case Some(es) => Some([e] + es)
  }

  lemma WordBytes(id: u16, kind: byte)
    ensures Word(id, kind) == [kind, id % 256, id / 256, 0]
  {
    var v := id * 256 + kind;
    assert v % 256 == kind && v / 256 == id;
    assert Le(v, 4) == [kind] + Le(id, 3);
    assert Le(id, 3) == [id % 256] + Le(id / 256, 2);
    assert Le(id / 256, 2) == [id / 256] + Le(0, 1);
    assert Le(0, 1) == [0] + Le(0, 0);
  }

  lemma ParseOne(e: Entry, rest: seq<byte>)
    ensures Parse(Encode(e) + rest) == Push(e, Parse(rest))
  {
    hide Word, Push;
    var bs := Encode(e) + rest;
    match e {
      case Select(id) =>
        WordBytes(id, 0x2);
        assert bs[4..] == rest;
      case Range(first, last) =>
        WordBytes(first, 0x3);
        WordBytes(last, 0x4);
        assert bs[8..] == rest;
      case AliasRange(first, last, alias) =>
        WordBytes(first, 0x43);
        WordBytes(alias, 0x0);
        WordBytes(last, 0x4);
        assert bs[12..] == rest;
    }
  }

  /** The entries survive the bytes. */
  lemma {:induction false} ParseEncode(es: seq<Entry>)
    ensures Parse(EncodeAll(es)) == Some(es)
  {
    hide Encode;
    if es != [] {
      ParseOne(es[0], EncodeAll(es[1..]));
      ParseEncode(es[1..]);
      assert [es[0]] + es[1..] == es;
    }
  }

  lemma {:induction false} EncodeAllAppend(xs: seq<Entry>, ys: seq<Entry>)
    ensures EncodeAll(xs + ys) == EncodeAll(xs) + EncodeAll(ys)
  {
    if xs == [] {
      assert xs + ys == ys;
    } else {
      assert (xs + ys)[1..] == xs[1..] + ys;
      EncodeAllAppend(xs[1..], ys);
    }
  }

  // ----- the code -----

  lemma EncodeOne(e: Entry)
    ensures EncodeAll([e]) == Encode(e)
  {
    assert EncodeAll([e]) == Encode(e) + EncodeAll([]);
  }

  /** insert_ivhd appends to the shared blob and recurses. */
  method InsertIvhd(blob: ByteVec, bus: byte, dev: Dev)
    modifies blob
    ensures blob.data == old(blob.data) + EncodeAll(Insert(bus, dev))
    decreases dev
  {
    hide Word, Le, EncodeAll;
    blob.AppendIntNoPrefix(Bdf(bus, dev.devfn) * 256 + 0x2, 4);
    assert blob.data == old(blob.data) + Encode(Select(Bdf(bus, dev.devfn))) by {
      WordIs(Bdf(bus, dev.devfn), 0x2);
    }
    EncodeOne(Select(Bdf(bus, dev.devfn)));
    EncodeAllAppend([Select(Bdf(bus, dev.devfn))], if dev.Bridge? then Behind(bus, dev) else []);
    if dev.Bridge? {
      ghost var before := blob.data;
      if dev.express {
        if dev.sec == dev.sub {
          blob.AppendIntNoPrefix(Bdf(dev.sec, 0) * 256 + 0x3, 4);
          blob.AppendIntNoPrefix(Bdf(dev.sub, 255) * 256 + 0x4, 4);
          WordIs(Bdf(dev.sec, 0), 0x3);
          WordIs(Bdf(dev.sub, 255), 0x4);
          EncodeOne(Behind(bus, dev)[0]);
        } else {
          ForEachDevice(blob, dev.sec, dev.children);
        }
      } else {
        var devIdA := Bdf(dev.sec, 0);
        var devIdB := if dev.pcieToPci then devIdA else Bdf(bus, dev.devfn);
        blob.AppendIntNoPrefix(devIdA * 256 + 0x43, 4);
        blob.AppendIntNoPrefix(devIdB * 256 + 0x0, 4);
        blob.AppendIntNoPrefix(Bdf(dev.sub, 255) * 256 + 0x4, 4);
        WordIs(devIdA, 0x43);
        WordIs(devIdB, 0x0);
        WordIs(Bdf(dev.sub, 255), 0x4);
        EncodeOne(Behind(bus, dev)[0]);
      }
      assert blob.data == before + EncodeAll(Behind(bus, dev));
    } else {
      EncodeNothing();
    }
  }

  lemma EncodeNothing()
    ensures EncodeAll([]) == []
  {
  }

  lemma WordIs(id: u16, kind: byte)
    ensures Word(id, kind) == Le(id * 256 + kind, 4)
  {
  }

  method ForEachDevice(blob: ByteVec, bus: byte, devs: seq<Dev>)
    modifies blob
    ensures blob.data == old(blob.data) + EncodeAll(Walk(bus, devs))
    decreases devs
  {
    hide Insert, EncodeAll;
    EncodeNothing();
    for i := 0 to |devs|
      invariant blob.data + EncodeAll(Walk(bus, devs[i..])) == old(blob.data) + EncodeAll(Walk(bus, devs))
    {
      InsertIvhd(blob, bus, devs[i]);
      assert devs[i..][0] == devs[i] && devs[i..][1..] == devs[i + 1..];
      EncodeAllAppend(Insert(bus, devs[i]), Walk(bus, devs[i + 1..]));
    }
  }

  /** The entries build_amd_iommu writes: those of the host bridges, or one that stands for all
      devices when there are none. */
  function DeviceEntries(hosts: seq<Host>): seq<byte> {
    var blob := EncodeAll(WalkHosts(hosts));
    if blob == [] then Le(1, 4) else blob
  }

  const IOAPIC_ENTRY: nat := 0x0100_A000_0000_0048

  lemma HostStep(hosts: seq<Host>, i: nat)
    requires i < |hosts|
    ensures EncodeAll(WalkHosts(hosts[i..])) ==
            (if hosts[i].bypass then [] else EncodeAll(Walk(hosts[i].busNum, hosts[i].devs)))
                  + EncodeAll(WalkHosts(hosts[i + 1..]))
  {
    hide EncodeAll, Walk;
    assert hosts[i..][0] == hosts[i] && hosts[i..][1..] == hosts[i + 1..];
    EncodeNothing();
    EncodeAllAppend(if hosts[i].bypass then [] else Walk(hosts[i].busNum, hosts[i].devs), WalkHosts(hosts[i + 1..]));
  }

  lemma NoHostLeft(hosts: seq<Host>)
    ensures EncodeAll(WalkHosts(hosts[|hosts|..])) == []
  {
  }

  /** The bus walk, into a blob of its own. */
  method CollectEntries(hosts: seq<Host>) returns (blob: ByteVec)
    ensures fresh(blob) && blob.data == DeviceEntries(hosts)
  {
    hide Le, EncodeAll, WalkHosts, Walk;
    blob := new ByteVec();
    for i := 0 to |hosts|
      invariant fresh(blob)
      invariant blob.data + EncodeAll(WalkHosts(hosts[i..])) == EncodeAll(WalkHosts(hosts))
    {
      HostStep(hosts, i);
      if !hosts[i].bypass {
        ForEachDevice(blob, hosts[i].busNum, hosts[i].devs);
      }
    }
    NoHostLeft(hosts);
    if |blob.data| == 0 {
      blob.AppendIntNoPrefix(1, 4);
    }
  }

  // ----- how long the block is -----

  /** Bytes for a device and what is behind it: 4 for its own entry; behind a bridge, 8 for a leaf bus
      and 12 for a conventional one; behind any other, what its devices need. */
  function Size(dev: Dev): nat
    decreases dev, 1
  {
    4 + if dev.Bridge? then SizeBehind(dev) else 0
  }

  function SizeBehind(dev: Dev): nat
    requires dev.Bridge?
    decreases dev, 0
  {
    if !dev.express then 12 else if dev.sec == dev.sub then 8 else SizeAll(dev.children)
  }

  function SizeAll(devs: seq<Dev>): nat
    decreases devs
  {
    if devs == [] then 0 else Size(devs[0]) + SizeAll(devs[1..])
  }

  function HostsSize(hosts: seq<Host>): nat {
    if hosts == [] then 0 else (if hosts[0].bypass then 0 else SizeAll(hosts[0].devs)) + HostsSize(hosts[1..])
  }

  /** The size of the IVHD block that the trees call for. */
  function BlockSize(hosts: seq<Host>, remapping: bool): nat {
    24 + (if HostsSize(hosts) == 0 then 4 else HostsSize(hosts)) + if remapping then 8 else 0
  }

  lemma {:induction false} InsertSize(bus: byte, dev: Dev)
    ensures |EncodeAll(Insert(bus, dev))| == Size(dev)
    decreases dev, 1
  {
    hide Word, EncodeAll;
    var id := Select(Bdf(bus, dev.devfn));
    var behind := if dev.Bridge? then Behind(bus, dev) else [];
    EncodeAllAppend([id], behind);
    EncodeOne(id);
    EncodeNothing();
    if dev.Bridge? {
      if dev.express && dev.sec != dev.sub {
        WalkSize(dev.sec, dev.children);
      } else {
        EncodeOne(behind[0]);
      }
    }
  }

  lemma {:induction false} WalkSize(bus: byte, devs: seq<Dev>)
    ensures |EncodeAll(Walk(bus, devs))| == SizeAll(devs)
    decreases devs, 0
  {
    hide EncodeAll, Insert, Size;
    if devs == [] {
      EncodeNothing();
    } else {
      InsertSize(bus, devs[0]);
      WalkSize(bus, devs[1..]);
      EncodeAllAppend(Insert(bus, devs[0]), Walk(bus, devs[1..]));
    }
  }

  /** The entries written take the bytes the trees call for. */
  lemma {:induction false} HostsSizeIs(hosts: seq<Host>)
    ensures |EncodeAll(WalkHosts(hosts))| == HostsSize(hosts)
  {
    hide EncodeAll, Walk, SizeAll;
    EncodeNothing();
    if hosts != [] {
      var h := hosts[0];
      WalkSize(h.busNum, h.devs);
      HostsSizeIs(hosts[1..]);
      EncodeAllAppend(if h.bypass then [] else Walk(h.busNum, h.devs), WalkHosts(hosts[1..]));
    }
  }

  /** The AMD IOMMU device: its requester id, the offset of its capability and its registers. */
  datatype Iommu = Iommu(deviceId: u16, capability: u16, mmio: u64)

  /** HtTunEn, iotblSup, PrefSup and PPRSup. */
  const IVHD_FLAGS: byte := 1 + 16 + 64 + 128

  /** The features as an unsigned long; only 32 bits of them are written. */
  const IVHD_FEATURES: nat := 48 * 0x4000_0000 + 48 * 0x1000_0000 + 4 + 64

  /** The fields between the length and the entries. */
  function IommuFields(s: Iommu): (r: seq<byte>)
    ensures |r| == 20
  {
    Le(s.deviceId, 2) + Le(s.capability, 2) + Le(s.mmio, 8) + Le(0, 2) + Le(0, 2) + Le(IVHD_FEATURES, 4)
  }

  /** The block: type, flags, length, the fields of the device, the entries and the IOAPIC entry. */
  function Block(hosts: seq<Host>, s: Iommu, remapping: bool): seq<byte> {
    var ioapic := if remapping then Le(IOAPIC_ENTRY, 8) else [];
    [0x10, IVHD_FLAGS] + Le(24 + |DeviceEntries(hosts)| + |ioapic|, 2) + IommuFields(s) + DeviceEntries(hosts) + ioapic
  }

  /** The IVHD block of build_amd_iommu. */
  method BuildIvhd(table: ByteVec, hosts: seq<Host>, s: Iommu, remapping: bool)
    modifies table
    ensures table.data == old(table.data) + Block(hosts, s, remapping)
  {
    hide Le, DeviceEntries;
    table.AppendIntNoPrefix(0x10, 1);
    table.AppendIntNoPrefix(IVHD_FLAGS, 1);
    OneByte(0x10);
    OneByte(IVHD_FLAGS);
    assert table.data == old(table.data) + [0x10, IVHD_FLAGS];
    var blob := CollectEntries(hosts);
    var ivhdTableLen := 24 + |blob.data|;
    if remapping {
      ivhdTableLen := ivhdTableLen + 8;
    }
    table.AppendIntNoPrefix(ivhdTableLen, 2);
    ghost var before := table.data;
    table.AppendIntNoPrefix(s.deviceId, 2);
    table.AppendIntNoPrefix(s.capability, 2);
    table.AppendIntNoPrefix(s.mmio, 8);
    table.AppendIntNoPrefix(0, 2);
    table.AppendIntNoPrefix(0, 2);
    table.AppendIntNoPrefix(IVHD_FEATURES, 4);
    assert table.data == before + IommuFields(s);
    table.Extend(blob.data);
    if remapping {
      table.AppendIntNoPrefix(IOAPIC_ENTRY, 8);
    }
    assert table.data == old(table.data) + Block(hosts, s, remapping);
  }

  lemma OneByte(b: byte)
    ensures Le(b, 1) == [b]
  {
    assert Le(b / 256, 0) == [];
  }

  /** The block takes the size its trees call for, and its length field says so exactly when that size
      fits 16 bits. */
  lemma LengthField(hosts: seq<Host>, s: Iommu, remapping: bool)
    ensures var block := Block(hosts, s, remapping);
            |block| == BlockSize(hosts, remapping)
            && (FromLe(block[2..4]) == |block| <==> BlockSize(hosts, remapping) < 0x1_0000)
  {
    hide Le, FromLe, EncodeAll, WalkHosts, HostsSize, IommuFields;
    HostsSizeIs(hosts);
    var n := BlockSize(hosts, remapping);
    var block := Block(hosts, s, remapping);
    assert |DeviceEntries(hosts)| == if HostsSize(hosts) == 0 then 4 else HostsSize(hosts);
    assert block[2..4] == Le(n, 2);
    PowersOf256();
    LeRoundTrip(n, 2);
  }

  /** What the firmware reads in the block: the device, no segment and no info, the features left after
      HATS and GATS have been shifted out of their 32 bits; behind them the entries of the walk, or the
      one of type 1 that stands for all devices when no bridge has any; and with interrupt remapping an
      entry of type 0x48 that says IOAPIC number 0 has the requester id 0x00A0. */
  lemma BlockFields(hosts: seq<Host>, s: Iommu, remapping: bool)
    ensures var block, end := Block(hosts, s, remapping), |Block(hosts, s, remapping)| - if remapping then 8 else 0;
            end >= 28 && block[0] == 0x10 && block[1] == 0xD1
            && FromLe(block[4..6]) == s.deviceId && FromLe(block[6..8]) == s.capability
            && FromLe(block[8..16]) == s.mmio && block[16..24] == [0, 0, 0, 0, 0x44, 0, 0, 0]
            && (if WalkHosts(hosts) == [] then block[24..end] == [1, 0, 0, 0]
                else Parse(block[24..end]) == Some(WalkHosts(hosts)))
            && (remapping ==> block[end..] == [0x48, 0, 0, 0, 0, 0xA0, 0, 1])
  {
    hide Le, FromLe, WalkHosts, IommuFields, DeviceEntries, Parse;
    var block, n := Block(hosts, s, remapping), |DeviceEntries(hosts)|;
    var head := [0x10, IVHD_FLAGS] + Le(24 + n + if remapping then 8 else 0, 2);
    var fields := IommuFields(s);
    assert block == head + fields + DeviceEntries(hosts) + if remapping then Le(IOAPIC_ENTRY, 8) else [];
    FieldsAre(s);
    SliceOfMiddle(head, fields, block, 0, 2);
    SliceOfMiddle(head, fields, block, 2, 4);
    SliceOfMiddle(head, fields, block, 4, 12);
    SliceOfMiddle(head, fields, block, 12, 20);
    assert block[24..24 + n] == DeviceEntries(hosts);
    EntriesRead(hosts);
    IoapicBytes();
  }

  lemma SliceOfMiddle(head: seq<byte>, mid: seq<byte>, all: seq<byte>, i: nat, j: nat)
    requires head + mid <= all && i <= j <= |mid|
    ensures all[|head| + i..|head| + j] == mid[i..j]
  {
    assert all[..|head| + |mid|] == head + mid;
  }

  lemma FieldsAre(s: Iommu)
    ensures var bs := IommuFields(s);
            FromLe(bs[0..2]) == s.deviceId && FromLe(bs[2..4]) == s.capability && FromLe(bs[4..12]) == s.mmio
            && bs[12..20] == [0, 0, 0, 0, 0x44, 0, 0, 0]
  {
    Features();
    ZeroWord();
    hide Le, FromLe;
    PowersOf256();
    LeFits(s.deviceId, 2);
    LeFits(s.capability, 2);
    LeFits(s.mmio, 8);
    var bs := IommuFields(s);
    assert bs[0..2] == Le(s.deviceId, 2) && bs[2..4] == Le(s.capability, 2) && bs[4..12] == Le(s.mmio, 8);
    assert bs[12..20] == Le(0, 2) + Le(0, 2) + Le(IVHD_FEATURES, 4);
  }

  lemma ZeroWord()
    ensures Le(0, 2) == [0, 0]
  {
    assert Le(0, 1) == [0] + Le(0, 0);
  }

  lemma Features()
    ensures Le(IVHD_FEATURES, 4) == [0x44, 0, 0, 0]
  {
    var v := IVHD_FEATURES;
    assert v % 256 == 0x44 && v / 256 % 256 == 0 && v / 256 / 256 % 256 == 0 && v / 256 / 256 / 256 % 256 == 0;
    assert Le(v, 4) == [0x44] + Le(v / 256, 3);
    assert Le(v / 256, 3) == [0] + Le(v / 256 / 256, 2);
    assert Le(v / 256 / 256, 2) == [0] + Le(v / 256 / 256 / 256, 1);
    assert Le(v / 256 / 256 / 256, 1) == [0] + Le(v / 256 / 256 / 256 / 256, 0);
  }

  lemma EntriesRead(hosts: seq<Host>)
    ensures |DeviceEntries(hosts)| >= 4
    ensures if WalkHosts(hosts) == [] then DeviceEntries(hosts) == [1, 0, 0, 0]
            else Parse(DeviceEntries(hosts)) == Some(WalkHosts(hosts))
  {
    hide WalkHosts, Parse, Le;
    ParseEncode(WalkHosts(hosts));
    EncodeNothing();
    WordBytes(0, 1);
    assert Le(1, 4) == Word(0, 1);
    if WalkHosts(hosts) != [] {
      assert |EncodeAll(WalkHosts(hosts))| >= 4 by {
        assert |Encode(WalkHosts(hosts)[0])| >= 4;
      }
    }
  }

  lemma IoapicBytes()
    ensures Le(IOAPIC_ENTRY, 8) == [0x48, 0, 0, 0, 0, 0xA0, 0, 1]
  {
    LeSplit(IOAPIC_ENTRY, 4, 4);
    PowersOf256();
    WordBytes(0, 0x48);
    assert Le(IOAPIC_ENTRY % 0x1_0000_0000, 4) == Word(0, 0x48);
    WordBytes(0xA0, 0);
    var high := IOAPIC_ENTRY / 0x1_0000_0000;
    assert high == 0x0100_A000;
    assert Le(high, 4) == [0] + Le(0x1_00A0, 3) && Le(0x1_00A0, 3) == [0xA0] + Le(0x100, 2);
    assert Le(0x100, 2) == [0] + Le(1, 1) && Le(1, 1) == [1] + Le(0, 0);
  }

  // ----- a tree that is too large -----

  function Endpoints(n: nat): (r: seq<Dev>)
    requires n <= 255
    ensures |r| == n && forall i :: 0 <= i < n ==> r[i] == Endpoint(i)
  {
    if n == 0 then [] else Endpoints(n - 1) + [Endpoint(n - 1)]
  }

  /** A bus with 255 endpoints and, as long as `left` is not zero, an express bridge to the next. */
  function Chain(bus: nat, left: nat): seq<Dev>
    requires bus + left < 200
    decreases left
  {
    Endpoints(255) + if left == 0 then [] else [Bridge(255, bus + 1, 200, true, false, Chain(bus + 1, left - 1))]
  }

  lemma {:induction false} ChainNested(bus: nat, left: nat)
    requires bus + left < 200
    ensures Nested(bus, Chain(bus, left), 200)
    decreases left
  {
    hide Endpoints;
    if left > 0 {
      ChainNested(bus + 1, left - 1);
    }
  }

  lemma {:induction false} SizeAppend(xs: seq<Dev>, ys: seq<Dev>)
    ensures SizeAll(xs + ys) == SizeAll(xs) + SizeAll(ys)
  {
    hide Size;
    if xs == [] {
      assert xs + ys == ys;
    } else {
      assert (xs + ys)[1..] == xs[1..] + ys;
      SizeAppend(xs[1..], ys);
    }
  }

  lemma OneSize(dev: Dev)
    ensures SizeAll([dev]) == Size(dev)
  {
    assert [dev][1..] == [];
  }

  lemma {:induction false} EndpointsSize(n: nat)
    requires n <= 255
    ensures SizeAll(Endpoints(n)) == 4 * n
  {
    hide SizeAll;
    if n == 0 {
      NoSize();
    } else {
      EndpointsSize(n - 1);
      SizeAppend(Endpoints(n - 1), [Endpoint(n - 1)]);
      OneSize(Endpoint(n - 1));
    }
  }

  lemma NoSize()
    ensures SizeAll([]) == 0
  {
  }

  lemma {:induction false} ChainSize(bus: nat, left: nat)
    requires bus + left < 200
    ensures SizeAll(Chain(bus, left)) == 1020 + 1024 * left
    decreases left
  {
    hide SizeAll, Endpoints;
    EndpointsSize(255);
    if left == 0 {
      assert Endpoints(255) + [] == Endpoints(255);
    } else {
      var bridge := Bridge(255, bus + 1, 200, true, false, Chain(bus + 1, left - 1));
      ChainSize(bus + 1, left - 1);
      SizeAppend(Endpoints(255), [bridge]);
      OneSize(bridge);
    }
  }

  /** A properly numbered chain of 81 buses needs more than the length field can say. */
  lemma ChainTooLong(s: Iommu, remapping: bool)
    ensures var hosts := [Host(0, 200, false, Chain(0, 80))];
            HostsNested(hosts) && BlockSize(hosts, remapping) >= 0x1_0000
            && FromLe(Block(hosts, s, remapping)[2..4]) != |Block(hosts, s, remapping)|
  {
    hide Chain, Block, FromLe, Nested, SizeAll;
    var hosts := [Host(0, 200, false, Chain(0, 80))];
    ChainNested(0, 80);
    ChainSize(0, 80);
    assert hosts[1..] == [];
    assert HostsSize(hosts) == 1020 + 1024 * 80;
    LengthField(hosts, s, remapping);
  }
}
