/** build_append_notfication_callback (acpi-build.c): a tree of PCI buses becomes a tree of scopes
    whose PCNT methods call each other; running the root PCNT notifies every hotplug bus. */
module Hotplug {
  import opened Bytes
  import opened Terms
  import Names

  /** A bus: whether it is a root bus of its own, the devfn of the bridge it hangs on, its hotplug
      selector if it has one, and the buses below it. */
  datatype Bus = Bus(isRoot: bool, devfn: byte, bsel: Option<u64>, children: seq<Bus>)

  // ----- names -----

  function Hex(d: int): byte
    requires 0 <= d < 16
  {
    if d < 10 then 0x30 + d else 0x37 + d
  }

  /** `S%.02X`, padded to a NameSeg. */
  function SlotSeg(devfn: byte): seq<byte> { [0x53, Hex(devfn / 16), Hex(devfn % 16), 0x5F] }

  const PCNT: seq<byte> := [0x50, 0x43, 0x4E, 0x54]
  const BNUM: Path := Names.Path(false, 0, [[0x42, 0x4E, 0x55, 0x4D]])
  const DVNT: Path := Names.Path(false, 0, [[0x44, 0x56, 0x4E, 0x54]])
  const PCIU: Path := Names.Path(false, 0, [[0x50, 0x43, 0x49, 0x55]])
  const PCID: Path := Names.Path(false, 0, [[0x50, 0x43, 0x49, 0x44]])

  /** A name of one segment, by its text. */
  function Called(text: string): Path { Names.Path(false, 0, [Ascii(text)]) }

  /** The names the program uses are the ones meant. */
  lemma Spelled()
    ensures BNUM == Called("BNUM") && DVNT == Called("DVNT") && PCIU == Called("PCIU") && PCID == Called("PCID")
    ensures PCNT == Ascii("PCNT")
  {
    assert Ascii("BNUM") == BNUM.segs[0] && Ascii("DVNT") == DVNT.segs[0];
    assert Ascii("PCIU") == PCIU.segs[0] && Ascii("PCID") == PCID.segs[0];
    assert Ascii("PCNT") == PCNT;
  }

  /** The value of a hexadecimal digit, capital letters only. */
  function HexValue(b: byte): Option<nat> {
    if 0x30 <= b <= 0x39 then Some(b - 0x30) else if 0x41 <= b <= 0x46 then Some(b - 0x41 + 10) else None
  }

  /** The name of a slot is an S, the two digits of its devfn, and the padding of a segment. */
  lemma SlotName(devfn: byte)
    ensures var s := SlotSeg(devfn);
            |s| == 4 && [s[0], s[3]] == Ascii("S_") && HexValue(s[1]).Some? && HexValue(s[2]).Some?
            && 16 * HexValue(s[1]).value + HexValue(s[2]).value == devfn
  {
    var s := SlotSeg(devfn);
    assert Ascii("S_")[0] == 0x53 && Ascii("S_")[1] == 0x5F;
    assert [s[0], s[3]] == Ascii("S_");
  }

  function ScopePath(devfn: byte): Path { Names.Path(false, 0, [SlotSeg(devfn)]) }

  /** `^S%.02X.PCNT` */
  function CallPath(devfn: byte): Path { Names.Path(false, 1, [SlotSeg(devfn), PCNT]) }

  function NameOf(p: Path): Term { MethodCall(p, []) }

  lemma SlotSegInjective(d: byte, e: byte)
    ensures SlotSeg(d) == SlotSeg(e) ==> d == e
  {
    if SlotSeg(d) == SlotSeg(e) {
      assert SlotSeg(d)[1] == SlotSeg(e)[1] && SlotSeg(d)[2] == SlotSeg(e)[2];
    }
  }

  // ----- the generated program -----

  /** The value build_append_notfication_callback returns: some bus here or below has a selector. */
  predicate Notifies(bus: Bus)
    decreases bus
  {
    bus.bsel.Some? || AnyNotifies(bus.children)
  }

  predicate AnyNotifies(buses: seq<Bus>)
    decreases buses
  {
    buses != [] && ((!buses[0].isRoot && Notifies(buses[0])) || AnyNotifies(buses[1..]))
  }

  /** nr_notifiers after a child; it accumulates over siblings. */
  function Count(nr: nat, child: Bus): nat {
    if !child.isRoot && Notifies(child) then nr + 1 else nr
  }

  /** Whether the child's scope is appended and its PCNT called: the running count is not zero. */
  predicate Kept(nr: nat, child: Bus) { !child.isRoot && Count(nr, child) > 0 }

  function Scopes(children: seq<Bus>, nr: nat): seq<Term>
    decreases children, 0
  {
    if children == [] then []
    else
      (if Kept(nr, children[0]) then [Scope(ScopePath(children[0].devfn), Program(children[0]))] else [])
      + Scopes(children[1..], Count(nr, children[0]))
  }

  function Calls(children: seq<Bus>, nr: nat): seq<Term> {
    if children == [] then []
    else
      (if Kept(nr, children[0]) then [NameOf(CallPath(children[0].devfn))] else [])
      + Calls(children[1..], Count(nr, children[0]))
  }

  /** Select the bus, then a device check and an eject request for it. */
  function OwnStatements(bsel: Option<u64>): seq<Term> {
    match bsel
    case None => []
    case Some(v) =>
      [Store(NameOf(BNUM), Int(v)), MethodCall(DVNT, [NameOf(PCIU), Int(1)]), MethodCall(DVNT, [NameOf(PCID), Int(3)])]
  }

  function PcntMethod(bus: Bus): Term {
    Method(Names.Path(false, 0, [PCNT]), 0, false, OwnStatements(bus.bsel) + Calls(bus.children, 0))
  }

  /** What is appended to the scope of a bus. */
  function Program(bus: Bus): seq<Term>
    decreases bus, 1
  {
    Scopes(bus.children, 0) + [PcntMethod(bus)]
  }

  // ----- what running it does -----

  /** A notification: DVNT called with a register name and a code while this bus is selected. */
  datatype Event = Event(bnum: u64, register: Path, code: u64)

  /** The value of BNUM, if it has been stored, and the notifications so far. */
  datatype Machine = Machine(bnum: Option<u64>, events: seq<Event>)

  /** The first scope of that name declared in a namespace level. */
  function FindScope(scope: seq<Term>, path: Path): (r: Option<nat>)
    ensures r.Some? ==> r.value < |scope| && scope[r.value].Scope?
  {
    if scope == [] then None
    else if scope[0].Scope? && scope[0].path == path then Some(0)
    else match FindScope(scope[1..], path) case None => None case Some(k) => Some(k + 1)
  }

  function FindMethod(scope: seq<Term>, path: Path): (r: Option<nat>)
    ensures r.Some? ==> r.value < |scope| && scope[r.value].Method?
  {
    if scope == [] then None
    else if scope[0].Method? && scope[0].path == path then Some(0)
    else match FindMethod(scope[1..], path) case None => None case Some(k) => Some(k + 1)
  }

  /** Running the PCNT method declared in a scope.  None when the method, or one it calls, is not
      declared or wants arguments, or a notification happens with no bus selected. */
  function RunScope(scope: seq<Term>, m: Machine): Option<Machine>
    decreases scope, 1, 0
  {
    match FindMethod(scope, Called("PCNT"))
    case None => None
    case Some(k) => if scope[k].argCount == 0 then RunBody(scope, scope[k].children, m) else None
  }

  /** Statements run in the scope of the method they belong to.  `^Sxx.PCNT` names the PCNT of the
      scope Sxx declared beside the method. */
  function RunBody(scope: seq<Term>, body: seq<Term>, m: Machine): Option<Machine>
    decreases scope, 0, |body|
  {
    if body == [] then Some(m)
    else
      match RunStatement(scope, body[0], m) case None => None case Some(m') => RunBody(scope, body[1..], m')
  }

  function RunStatement(scope: seq<Term>, t: Term, m: Machine): Option<Machine>
    decreases scope, 0, 0
  {
    if t.Store? && t.destination == NameOf(Called("BNUM")) && t.source.Int? then Some(m.(bnum := Some(t.source.value)))
    else if t.MethodCall? && t.name == Called("DVNT") && |t.args| == 2 && t.args[0].MethodCall? && t.args[1].Int?
          && m.bnum.Some? then
      Some(m.(events := m.events + [Event(m.bnum.value, t.args[0].name, t.args[1].value)]))
    else if t.MethodCall? && !t.name.root && t.name.carets == 1 && |t.name.segs| == 2
          && t.name.segs[1] == Ascii("PCNT") then
      (match FindScope(scope, Names.Path(false, 0, [t.name.segs[0]]))
       case None => None
       case Some(k) => RunScope(scope[k].children, m))
    else None
  }

  /** What hotplug needs: two notifications for every bus with a selector, parents first. */
  function Expected(bus: Bus): seq<Event>
    decreases bus
  {
    OwnEvents(bus.bsel) + ExpectedAll(bus.children)
  }

  function OwnEvents(bsel: Option<u64>): seq<Event> {
    match bsel case None => [] case Some(v) => [Event(v, Called("PCIU"), 1), Event(v, Called("PCID"), 3)]
  }

  function ExpectedAll(buses: seq<Bus>): seq<Event>
    decreases buses
  {
    if buses == [] then []
    else (if buses[0].isRoot then [] else Expected(buses[0])) + ExpectedAll(buses[1..])
  }

  predicate DistinctSiblings(children: seq<Bus>) {
    forall i, j :: 0 <= i < j < |children| && !children[i].isRoot && !children[j].isRoot
                   ==> children[i].devfn != children[j].devfn
  }

  /** Sibling buses hang on different bridges, all the way down. */
  predicate DistinctDevfns(bus: Bus)
    decreases bus
  {
    DistinctSiblings(bus.children)
    && forall i :: 0 <= i < |bus.children| ==> DistinctDevfns(bus.children[i])
  }

  // ----- lookups find what was declared -----

  /** The running count when child `i` is reached. */
  function NrAt(children: seq<Bus>, nr: nat, i: nat): nat
    requires i <= |children|
    decreases i
  {
    if i == 0 then nr else NrAt(children[1..], Count(nr, children[0]), i - 1)
  }

  lemma {:induction false} ScopesAreScopes(children: seq<Bus>, nr: nat)
    ensures forall k :: 0 <= k < |Scopes(children, nr)| ==> Scopes(children, nr)[k].Scope?
    decreases children
  {
    if children != [] {
      ScopesAreScopes(children[1..], Count(nr, children[0]));
    }
  }

  lemma {:induction false} FindMethodBehind(scopes: seq<Term>, t: Term)
    requires (forall k :: 0 <= k < |scopes| ==> scopes[k].Scope?) && t.Method?
    ensures FindMethod(scopes + [t], t.path) == Some(|scopes|)
  {
    if scopes != [] {
      assert (scopes + [t])[1..] == scopes[1..] + [t];
      FindMethodBehind(scopes[1..], t);
    }
  }

  /** A kept child's scope is the one its name finds. */
  lemma {:induction false} FindKept(children: seq<Bus>, nr: nat, i: nat, tail: seq<Term>)
    requires DistinctSiblings(children) && i < |children| && Kept(NrAt(children, nr, i), children[i])
    ensures var scope, path := Scopes(children, nr) + tail, ScopePath(children[i].devfn);
            FindScope(scope, path).Some? && scope[FindScope(scope, path).value] == Scope(path, Program(children[i]))
    decreases i
  {
    hide Program, Notifies, SlotSeg;
    var c := children[0];
    var scope := Scopes(children, nr) + tail;
    if i > 0 {
      FindKept(children[1..], Count(nr, c), i - 1, tail);
      var rest := Scopes(children[1..], Count(nr, c)) + tail;
      if Kept(nr, c) {
        assert scope == [Scope(ScopePath(c.devfn), Program(c))] + rest;
        assert scope[1..] == rest;
        SegsDiffer(c.devfn, children[i].devfn);
      } else {
        assert scope == rest;
      }
    }
  }

  lemma SegsDiffer(d: byte, e: byte)
    ensures d != e ==> ScopePath(d) != ScopePath(e)
  {
    SlotSegInjective(d, e);
    assert ScopePath(d).segs[0] == SlotSeg(d) && ScopePath(e).segs[0] == SlotSeg(e);
  }

  // ----- running -----

  /** The machine after some notifications; the bus selected last stays selected. */
  function After(m: Machine, events: seq<Event>): Machine {
    Machine(if events == [] then m.bnum else Some(events[|events| - 1].bnum), m.events + events)
  }

  lemma AfterAfter(m: Machine, a: seq<Event>, b: seq<Event>)
    ensures After(After(m, a), b) == After(m, a + b)
  {
    assert m.events + a + b == m.events + (a + b);
  }

  lemma {:induction false} RunBodyAppend(scope: seq<Term>, xs: seq<Term>, ys: seq<Term>, m: Machine)
    ensures RunBody(scope, xs + ys, m) ==
            match RunBody(scope, xs, m) case None => None case Some(m') => RunBody(scope, ys, m')
    decreases |xs|
  {
    hide RunStatement;
    if xs == [] {
      assert xs + ys == ys;
    } else {
      assert (xs + ys)[0] == xs[0] && (xs + ys)[1..] == xs[1..] + ys;
      match RunStatement(scope, xs[0], m) {
        case None =>
        case Some(m') => RunBodyAppend(scope, xs[1..], ys, m');
      }
    }
  }

  lemma RunOwn(scope: seq<Term>, bsel: Option<u64>, m: Machine)
    ensures RunBody(scope, OwnStatements(bsel), m) == Some(After(m, OwnEvents(bsel)))
  {
    if bsel == None {
      assert m.events + [] == m.events;
    } else {
      Spelled();
      var body := OwnStatements(bsel);
      var m1 := m.(bnum := bsel);
      var m2 := m1.(events := m.events + [Event(bsel.value, PCIU, 1)]);
      var m3 := m2.(events := m2.events + [Event(bsel.value, PCID, 3)]);
      assert RunStatement(scope, body[0], m) == Some(m1);
      assert RunStatement(scope, body[1], m1) == Some(m2);
      assert RunStatement(scope, body[2], m2) == Some(m3);
      hide RunStatement;
      assert body[1..][0] == body[1] && body[1..][1..] == [body[2]];
      assert RunBody(scope, [body[2]], m2) == Some(m3) by {
        assert [body[2]][1..] == [];
      }
      assert m3 == After(m, OwnEvents(bsel));
    }
  }

  /** A bus without selectors below it expects nothing and generates an empty method. */
  lemma {:induction false} Quiet(bus: Bus)
    requires !Notifies(bus)
    ensures Expected(bus) == [] && Program(bus) == [Method(Names.Path(false, 0, [PCNT]), 0, false, [])]
    decreases bus
  {
    QuietAll(bus.children);
  }

  lemma {:induction false} QuietAll(buses: seq<Bus>)
    requires !AnyNotifies(buses)
    ensures ExpectedAll(buses) == [] && Scopes(buses, 0) == [] && Calls(buses, 0) == []
    decreases buses
  {
    if buses != [] {
      QuietAll(buses[1..]);
      if !buses[0].isRoot {
        Quiet(buses[0]);
      }
    }
  }

  /** The value returned says whether there is anything to notify, although the counter behind it
      accumulates over siblings. */
  lemma {:induction false} ReturnsWhetherAny(bus: Bus)
    ensures Notifies(bus) <==> Expected(bus) != []
    decreases bus
  {
    AnyReturns(bus.children);
  }

  lemma {:induction false} AnyReturns(buses: seq<Bus>)
    ensures AnyNotifies(buses) <==> ExpectedAll(buses) != []
    decreases buses
  {
    if buses != [] {
      AnyReturns(buses[1..]);
      ReturnsWhetherAny(buses[0]);
    }
  }

  // ----- which children are kept -----

  function Bridges(children: seq<Bus>): seq<Bus> {
    if children == [] then [] else (if children[0].isRoot then [] else [children[0]]) + Bridges(children[1..])
  }

  /** One scope and one call for each of these buses, in order. */
  ghost predicate OneEach(buses: seq<Bus>, scopes: seq<Term>, calls: seq<Term>) {
    && |scopes| == |buses| && |calls| == |buses|
    && forall k :: 0 <= k < |buses| ==>
         && scopes[k] == Scope(Names.Path(false, 0, [SlotSeg(buses[k].devfn)]), Program(buses[k]))
         && calls[k] == MethodCall(Names.Path(false, 1, [SlotSeg(buses[k].devfn), Ascii("PCNT")]), [])
  }

  lemma NoneEach()
    ensures OneEach([], [], [])
  {
  }

  /** One more bus in front. */
  lemma OneMore(bus: Bus, buses: seq<Bus>, scopes: seq<Term>, calls: seq<Term>)
    requires OneEach(buses, scopes, calls)
    ensures OneEach([bus] + buses, [Scope(ScopePath(bus.devfn), Program(bus))] + scopes,
                    [NameOf(CallPath(bus.devfn))] + calls)
  {
    hide Program, SlotSeg;
    Spelled();
  }

  lemma {:induction false} CountedKept(children: seq<Bus>, nr: nat)
    requires nr > 0
    ensures OneEach(Bridges(children), Scopes(children, nr), Calls(children, nr))
  {
    hide Program, Notifies, OneEach, ScopePath, CallPath;
    if children == [] {
      NoneEach();
    } else {
      CountedKept(children[1..], Count(nr, children[0]));
      KeepOne(children, nr);
    }
  }

  lemma KeepOne(children: seq<Bus>, nr: nat)
    requires children != [] && (!children[0].isRoot ==> Kept(nr, children[0]))
    requires OneEach(Bridges(children[1..]), Scopes(children[1..], Count(nr, children[0])),
                     Calls(children[1..], Count(nr, children[0])))
    ensures OneEach(Bridges(children), Scopes(children, nr), Calls(children, nr))
  {
    hide Program, OneEach, ScopePath, CallPath, Count;
    var more, calls := Scopes(children[1..], Count(nr, children[0])), Calls(children[1..], Count(nr, children[0]));
    if children[0].isRoot {
      assert [] + Bridges(children[1..]) == Bridges(children[1..]) && [] + more == more && [] + calls == calls;
    } else {
      OneMore(children[0], Bridges(children[1..]), more, calls);
    }
  }

  /** The count of notifying buses runs on over the children: none is kept before the first one below which
      something is to be notified, and from there on every bridge has its scope and its call, whether
      or not anything is to be notified below it. */
  lemma {:induction false} KeptFromFirst(children: seq<Bus>, m: nat)
    requires m <= |children| && forall j :: 0 <= j < m ==> children[j].isRoot || Expected(children[j]) == []
    requires m < |children| ==> !children[m].isRoot && Expected(children[m]) != []
    ensures OneEach(Bridges(children[m..]), Scopes(children, 0), Calls(children, 0))
  {
    hide Program, Notifies, Expected, OneEach, ScopePath, CallPath;
    if children == [] {
      NoneEach();
    } else {
      ReturnsWhetherAny(children[0]);
      if m == 0 {
        CountedKept(children[1..], 1);
        KeepOne(children, 0);
        assert children[0..] == children;
      } else {
        KeptFromFirst(children[1..], m - 1);
        assert children[1..][m - 1..] == children[m..];
        assert !Kept(0, children[0]) && Count(0, children[0]) == 0;
        SkippedChild(children, 0);
        assert [] + Scopes(children[1..], 0) == Scopes(children[1..], 0);
      }
    }
  }

  lemma RunCall(scope: seq<Term>, devfn: byte, m: Machine)
    ensures RunStatement(scope, NameOf(CallPath(devfn)), m) ==
            match FindScope(scope, ScopePath(devfn)) case None => None case Some(k) => RunScope(scope[k].children, m)
  {
    Spelled();
  }

  /** A child that is not kept is not called, and expects nothing. */
  lemma SkippedChild(buses: seq<Bus>, nr: nat)
    requires buses != [] && !Kept(nr, buses[0])
    ensures Calls(buses, nr) == Calls(buses[1..], Count(nr, buses[0]))
    ensures ExpectedAll(buses) == ExpectedAll(buses[1..])
  {
    if !buses[0].isRoot {
      Quiet(buses[0]);
    }
    assert [] + ExpectedAll(buses[1..]) == ExpectedAll(buses[1..]);
    assert [] + Calls(buses[1..], Count(nr, buses[0])) == Calls(buses[1..], Count(nr, buses[0]));
  }

  /** The calls for the children from `i` on. */
  lemma {:induction false} RunCalls(bus: Bus, i: nat, m: Machine)
    requires DistinctDevfns(bus) && i <= |bus.children|
    ensures RunBody(Program(bus), Calls(bus.children[i..], NrAt(bus.children, 0, i)), m)
            == Some(After(m, ExpectedAll(bus.children[i..])))
    decreases bus, |bus.children| - i
  {
    hide RunStatement, RunScope, Program, Notifies, SlotSeg;
    var scope, children := Program(bus), bus.children;
    if i == |children| {
      assert children[i..] == [];
      assert m.events + [] == m.events;
    } else {
      var c, nr := children[i], NrAt(children, 0, i);
      assert children[i..][0] == c && children[i..][1..] == children[i + 1..];
      NrStep(children, 0, i);
      if Kept(nr, c) {
        ProgramIs(bus);
        FindKept(children, 0, i, [PcntMethod(bus)]);
        RunCall(scope, c.devfn, m);
        Runs(c, m);
        var m' := After(m, Expected(c));
        RunCalls(bus, i + 1, m');
        AfterAfter(m, Expected(c), ExpectedAll(children[i + 1..]));
      } else {
        SkippedChild(children[i..], nr);
        RunCalls(bus, i + 1, m);
      }
    }
  }

  lemma ProgramIs(bus: Bus)
    ensures Program(bus) == Scopes(bus.children, 0) + [PcntMethod(bus)]
  {
  }

  lemma {:induction false} NrStep(children: seq<Bus>, nr: nat, i: nat)
    requires i < |children|
    ensures NrAt(children, nr, i + 1) == Count(NrAt(children, nr, i), children[i])
    decreases i
  {
    if i > 0 {
      NrStep(children[1..], Count(nr, children[0]), i - 1);
    }
  }

  /** Hotplug notification: running the generated PCNT finds every method it calls, and notifies
      exactly the buses with a selector that lie in the non-root subtree, each of them once with
      both codes while it is selected, parents before children. */
  lemma {:induction false} Runs(bus: Bus, m: Machine)
    requires DistinctDevfns(bus)
    ensures RunScope(Program(bus), m) == Some(After(m, Expected(bus)))
    decreases bus
  {
    hide RunBody, RunStatement;
    Spelled();
    var scope := Program(bus);
    ScopesAreScopes(bus.children, 0);
    FindMethodBehind(Scopes(bus.children, 0), PcntMethod(bus));
    RunOwn(scope, bus.bsel, m);
    var m' := After(m, OwnEvents(bus.bsel));
    RunBodyAppend(scope, OwnStatements(bus.bsel), Calls(bus.children, 0), m);
    assert bus.children[0..] == bus.children;
    RunCalls(bus, 0, m');
    AfterAfter(m, OwnEvents(bus.bsel), ExpectedAll(bus.children));
  }

  /** How many buses of the non-root subtree have this selector. */
  function Holders(bus: Bus, v: u64): nat
    decreases bus
  {
    (if bus.bsel == Some(v) then 1 else 0) + HoldersAll(bus.children, v)
  }

  function HoldersAll(buses: seq<Bus>, v: u64): nat
    decreases buses
  {
    if buses == [] then 0 else (if buses[0].isRoot then 0 else Holders(buses[0], v)) + HoldersAll(buses[1..], v)
  }

  /** One notification of each kind for each bus with a selector, and none besides. */
  lemma {:induction false} OncePerBus(bus: Bus, v: u64)
    ensures multiset(Expected(bus))[Event(v, Called("PCIU"), 1)] == Holders(bus, v)
    ensures multiset(Expected(bus))[Event(v, Called("PCID"), 3)] == Holders(bus, v)
    decreases bus
  {
    OncePerBusAll(bus.children, v);
    Spelled();
    assert PCIU.segs[0][3] != PCID.segs[0][3];
    assert Expected(bus) == OwnEvents(bus.bsel) + ExpectedAll(bus.children);
  }

  lemma {:induction false} OncePerBusAll(buses: seq<Bus>, v: u64)
    ensures multiset(ExpectedAll(buses))[Event(v, Called("PCIU"), 1)] == HoldersAll(buses, v)
    ensures multiset(ExpectedAll(buses))[Event(v, Called("PCID"), 3)] == HoldersAll(buses, v)
    decreases buses
  {
    if buses != [] {
      OncePerBusAll(buses[1..], v);
      if !buses[0].isRoot {
        OncePerBus(buses[0], v);
      }
    }
  }
}
