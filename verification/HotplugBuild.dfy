/** build_append_notfication_callback as the C code runs it: Aml objects appended into one another,
    a counter and a queue.  The bytes it leaves, read back, run as Hotplug says. */
module HotplugBuild {
  import opened Bytes
  import opened Terms
  import opened Hotplug
  import Names
  import AmlBuild
  import Decoder
  import RoundTrip

  /** The one method the program calls with arguments. */
  const ARITIES: Arities := map[DVNT := 2]

  /** The bytes of these terms fit a package. */
  predicate Sized(ts: seq<Term>) { |EncodeAll(ts)| + 4 < 0x1000_0000 }

  lemma SizedParts(xs: seq<Term>, ys: seq<Term>)
    requires Sized(xs + ys)
    ensures Sized(xs) && Sized(ys)
  {
    hide Encode;
    EncodeAllAppend(xs, ys);
  }

  lemma SizedPackage(t: Term)
    requires Sized([t]) && (t.Scope? || t.Method?)
    ensures Countable(t) && Sized(t.children)
  {
    assert EncodeAll([t]) == Encode(t) + [];
    assert |Encode(t)| > |Content(t)|;
  }

  predicate Good(t: Term) { AmlBuild.InBoth(t) && WellFormed(t, ARITIES) }

  predicate AllGood(ts: seq<Term>) { forall i :: 0 <= i < |ts| ==> Good(ts[i]) }

  lemma SegsLegal(devfn: byte)
    ensures Names.Legal(ScopePath(devfn)) && Names.Legal(CallPath(devfn)) && Names.Legal(Names.Path(false, 0, [PCNT]))
    ensures Names.Legal(BNUM) && Names.Legal(DVNT) && Names.Legal(PCIU) && Names.Legal(PCID)
  {
    assert Names.NameSeg(SlotSeg(devfn)) && Names.NameSeg(PCNT);
  }

  lemma NameGood(p: Path)
    requires Names.Legal(p) && p != DVNT
    ensures Good(NameOf(p))
  {
  }

  lemma RegistersGood()
    ensures Good(NameOf(BNUM)) && Good(NameOf(PCIU)) && Good(NameOf(PCID))
  {
    SegsLegal(0);
    assert BNUM.segs[0][0] == 0x42 && DVNT.segs[0][0] == 0x44 && PCIU.segs[0][0] == 0x50 && PCID.segs[0][0] == 0x50;
    NameGood(BNUM);
    NameGood(PCIU);
    NameGood(PCID);
  }

  lemma IntGood(v: u64)
    ensures Good(Int(v))
  {
  }

  lemma StoreGood(a: Term, b: Term)
    requires Good(a) && Good(b)
    ensures Good(Store(a, b))
  {
  }

  lemma OwnGood(bsel: Option<u64>)
    ensures AllGood(OwnStatements(bsel))
  {
    hide Good;
    RegistersGood();
    IntGood(1);
    IntGood(3);
    if bsel.Some? {
      IntGood(bsel.value);
      StoreGood(NameOf(BNUM), Int(bsel.value));
      PairGood(NameOf(PCIU), Int(1));
      PairGood(NameOf(PCID), Int(3));
    }
  }

  lemma PairGood(a: Term, b: Term)
    requires Good(a) && Good(b)
    ensures Good(MethodCall(DVNT, [a, b]))
  {
    SegsLegal(0);
  }

  lemma {:induction false} CallsGood(children: seq<Bus>, nr: nat)
    ensures AllGood(Calls(children, nr))
    decreases children
  {
    hide Names.Legal, Kept, Count;
    if children != [] {
      SegsLegal(children[0].devfn);
      NameGood(CallPath(children[0].devfn));
      CallsGood(children[1..], Count(nr, children[0]));
    }
  }

  lemma {:induction false} ProgramGood(bus: Bus)
    requires Sized(Program(bus))
    ensures AllGood(Program(bus))
    decreases bus, 1
  {
    var scopes, t := Scopes(bus.children, 0), PcntMethod(bus);
    ProgramIs(bus);
    SizedParts(scopes, [t]);
    ScopesGood(bus.children, 0);
    SizedPackage(t);
    OwnGood(bus.bsel);
    CallsGood(bus.children, 0);
    SegsLegal(0);
    hide Program, Names.Legal, OwnStatements, Calls, Scopes, Countable;
    BodyGood(t, OwnStatements(bus.bsel), Calls(bus.children, 0));
  }

  lemma BodyGood(t: Term, xs: seq<Term>, ys: seq<Term>)
    requires t == Method(Names.Path(false, 0, [PCNT]), 0, false, xs + ys)
    requires AllGood(xs) && AllGood(ys) && Countable(t)
    ensures Good(t)
  {
    SegsLegal(0);
    assert forall i :: 0 <= i < |xs + ys| ==> Good((xs + ys)[i]);
  }

  lemma ScopeGood(devfn: byte, ts: seq<Term>)
    requires AllGood(ts) && Countable(Scope(ScopePath(devfn), ts))
    ensures Good(Scope(ScopePath(devfn), ts))
  {
    SegsLegal(devfn);
    assert forall i :: 0 <= i < |ts| ==> Good(ts[i]);
  }

  lemma {:induction false} ScopesGood(children: seq<Bus>, nr: nat)
    requires Sized(Scopes(children, nr))
    ensures AllGood(Scopes(children, nr))
    decreases children, 0
  {
    if children != [] {
      var c, rest := children[0], Scopes(children[1..], Count(nr, children[0]));
      if Kept(nr, c) {
        var t := Scope(ScopePath(c.devfn), Program(c));
        SizedParts([t], rest);
        SizedPackage(t);
        ProgramGood(c);
        ScopeGood(c.devfn, Program(c));
      } else {
        assert Scopes(children, nr) == rest;
      }
      ScopesGood(children[1..], Count(nr, c));
    }
  }

  /** A kept child's program is part of its parent's; the program of a child that is not kept is
      an empty method. */
  lemma {:induction false} ChildSized(children: seq<Bus>, nr: nat, i: nat)
    requires Sized(Scopes(children, nr)) && i < |children| && !children[i].isRoot
    ensures Sized(Program(children[i]))
    decreases i
  {
    hide Program, Notifies;
    var c := children[0];
    var own := if Kept(nr, c) then [Scope(ScopePath(c.devfn), Program(c))] else [];
    SizedParts(own, Scopes(children[1..], Count(nr, c)));
    if i > 0 {
      ChildSized(children[1..], Count(nr, c), i - 1);
    } else if Notifies(c) {
      SizedPackage(own[0]);
    } else {
      Quiet(c);
      EmptyMethodSized();
    }
  }

  lemma EmptyMethodSized()
    ensures Sized([Method(Names.Path(false, 0, [PCNT]), 0, false, [])])
  {
    var t := Method(Names.Path(false, 0, [PCNT]), 0, false, []);
    assert Content(t) == Names.Encode(t.path) + [0] + [];
    assert Content(t) == [] + [0x50, 0x43, 0x4E, 0x54] + [0] + [] by {
      assert Names.Concat([PCNT]) == PCNT + [];
    }
    assert EncodeAll([t]) == Encode(t) + [];
  }

  // ----- the C function -----

  /** aml_scope */
  method AmlScope(path: Path) returns (v: AmlBuild.AmlNode)
    requires Names.Legal(path)
    ensures fresh(v) && fresh(v.buf) && v.op == 0x10 && v.flags == AmlBuild.PackageBlock
    ensures v.buf.data == Names.Encode(path)
  {
    v := new AmlBuild.AmlNode(0x10, AmlBuild.PackageBlock);
    AmlBuild.AppendName(v.buf, path);
  }

  /** aml_method, not serialized and without arguments. */
  method AmlMethod(path: Path) returns (v: AmlBuild.AmlNode)
    requires Names.Legal(path)
    ensures fresh(v) && fresh(v.buf) && v.op == 0x14 && v.flags == AmlBuild.PackageBlock
    ensures v.buf.data == Names.Encode(path) + [0x00]
  {
    v := new AmlBuild.AmlNode(0x14, AmlBuild.PackageBlock);
    AmlBuild.AppendName(v.buf, path);
    v.buf.Push(0x00);
  }

  lemma PackageEmits(t: Term)
    requires (t.Scope? || t.Method?) && Countable(t)
    ensures AmlBuild.Emitted(Content(t), if t.Scope? then 0x10 else 0x14, AmlBuild.PackageBlock) == Encode(t)
  {
    hide Content, AmlBuild.CPkg, Pkg;
    AmlBuild.SamePackage([if t.Scope? then 0x10 else 0x14], Content(t));
  }

  /** The children walked so far: what is in the parent's scope, the counter and the queue. */
  ghost predicate Walked(bus: Bus, i: nat, nr: nat, queue: seq<Bus>, added: seq<byte>)
    requires i <= |bus.children|
  {
    var children := bus.children;
    nr == NrAt(children, 0, i)
    && added + EncodeAll(Scopes(children[i..], nr)) == EncodeAll(Scopes(children, 0))
    && QueueCalls(queue) + Calls(children[i..], nr) == Calls(children, 0)
    && (nr > 0 || AnyNotifies(children[i..]) <==> AnyNotifies(children))
  }

  function QueueCalls(queue: seq<Bus>): seq<Term> {
    if queue == [] then [] else [NameOf(CallPath(queue[0].devfn))] + QueueCalls(queue[1..])
  }

  lemma {:induction false} QueueTail(queue: seq<Bus>, sec: Bus)
    ensures QueueCalls(queue + [sec]) == QueueCalls(queue) + [NameOf(CallPath(sec.devfn))]
  {
    if queue == [] {
      assert queue + [sec] == [sec];
    } else {
      assert (queue + [sec])[1..] == queue[1..] + [sec];
      QueueTail(queue[1..], sec);
    }
  }

  /** One child moves the walk on. */
  lemma Step(bus: Bus, i: nat, nr: nat, queue: seq<Bus>, added: seq<byte>)
    requires i < |bus.children| && Walked(bus, i, nr, queue, added)
    ensures nr == NrAt(bus.children, 0, i)
    ensures var c := bus.children[i];
            var t := Scope(ScopePath(c.devfn), Program(c));
            Walked(bus, i + 1, Count(nr, c), if Kept(nr, c) then queue + [c] else queue,
                   if Kept(nr, c) then added + Encode(t) else added)
  {
    hide Program, Notifies, Encode, SlotSeg;
    var children := bus.children;
    var c, rest := children[i], children[i + 1..];
    assert children[i..][0] == c && children[i..][1..] == rest;
    NrStep(children, 0, i);
    var scopes, calls := Scopes(rest, Count(nr, c)), Calls(rest, Count(nr, c));
    if Kept(nr, c) {
      var t := Scope(ScopePath(c.devfn), Program(c));
      assert ([t] + scopes)[0] == t && ([t] + scopes)[1..] == scopes;
      assert added + (Encode(t) + EncodeAll(scopes)) == added + Encode(t) + EncodeAll(scopes);
      QueueTail(queue, c);
      assert QueueCalls(queue) + ([NameOf(CallPath(c.devfn))] + calls)
          == QueueCalls(queue) + [NameOf(CallPath(c.devfn))] + calls;
    } else {
      assert [] + scopes == scopes && [] + calls == calls;
    }
  }

  /** A kept child's scope is counted by the parent's bytes, so its length fits. */
  lemma {:induction false} KeptCountable(children: seq<Bus>, nr: nat, i: nat)
    requires Sized(Scopes(children, nr)) && i < |children| && Kept(NrAt(children, nr, i), children[i])
    ensures Countable(Scope(ScopePath(children[i].devfn), Program(children[i])))
    decreases i
  {
    hide Program, Notifies, Countable, SlotSeg;
    var c := children[0];
    var own := if Kept(nr, c) then [Scope(ScopePath(c.devfn), Program(c))] else [];
    SizedParts(own, Scopes(children[1..], Count(nr, c)));
    if i > 0 {
      KeptCountable(children[1..], Count(nr, c), i - 1);
    } else {
      SizedPackage(own[0]);
    }
  }

  /** The PCNT method: the bus's own notifications, then a call for each bus of the queue. */
  method BuildPcnt(bus: Bus, queue: seq<Bus>) returns (v: AmlBuild.AmlNode)
    requires QueueCalls(queue) == Calls(bus.children, 0) && Countable(PcntMethod(bus))
    ensures fresh(v) && fresh(v.buf) && v.Emit() == Encode(PcntMethod(bus))
  {
    hide Encode, AmlBuild.InBoth, WellFormed, Countable, SlotSeg, Names.Encode, Names.Legal, AmlBuild.Emitted;
    SegsLegal(0);
    OwnGood(bus.bsel);
    CallsGood(bus.children, 0);
    v := AmlMethod(Names.Path(false, 0, [PCNT]));
    ghost var head := v.buf.data;
    if bus.bsel.Some? {
      AmlBuild.AppendTerms(v, OwnStatements(bus.bsel));
    }
    assert v.buf.data == head + EncodeAll(OwnStatements(bus.bsel));
    ghost var own := v.buf.data;
    var rest := queue;
    while rest != []
      invariant v.buf.data + EncodeAll(QueueCalls(rest)) == own + EncodeAll(QueueCalls(queue))
      invariant fresh(v) && fresh(v.buf)
      decreases |rest|
    {
      var sec := rest[0];
      SegsLegal(sec.devfn);
      NameGood(CallPath(sec.devfn));
      var call := AmlBuild.BuildTerm(NameOf(CallPath(sec.devfn)));
      AmlBuild.AmlAppend(v, call);
      CallsHead(rest);
      rest := rest[1..];
    }
    assert v.buf.data == own + EncodeAll(Calls(bus.children, 0));
    EncodeAllAppend(OwnStatements(bus.bsel), Calls(bus.children, 0));
    assert PcntMethod(bus).children == OwnStatements(bus.bsel) + Calls(bus.children, 0);
    assert v.buf.data == head + EncodeAll(PcntMethod(bus).children);
    PackageEmits(PcntMethod(bus));
  }

  lemma CallsHead(queue: seq<Bus>)
    requires queue != []
    ensures EncodeAll(QueueCalls(queue)) == Encode(NameOf(CallPath(queue[0].devfn))) + EncodeAll(QueueCalls(queue[1..]))
  {
    hide Encode;
    var t, ts := NameOf(CallPath(queue[0].devfn)), QueueCalls(queue[1..]);
    assert ([t] + ts)[0] == t && ([t] + ts)[1..] == ts;
  }

  /** br_scope after the recursive call: everything the child generated, in a scope of its own. */
  method BuildChild(brScope: AmlBuild.AmlNode, sec: Bus) returns (any: bool)
    requires Sized(Program(sec)) && brScope.buf.data == Names.Encode(ScopePath(sec.devfn))
    modifies brScope.buf
    ensures brScope.buf.data == Content(Scope(ScopePath(sec.devfn), Program(sec)))
    ensures any == Notifies(sec)
    decreases sec, 1
  {
    any := BuildAppendNotificationCallback(brScope, sec);
  }

  /** build_append_notfication_callback: appends the bus's program to its scope, and says whether
      anything in it notifies. */
  method BuildAppendNotificationCallback(parent: AmlBuild.AmlNode, bus: Bus) returns (any: bool)
    requires Sized(Program(bus))
    modifies parent.buf
    ensures parent.buf.data == old(parent.buf.data) + EncodeAll(Program(bus))
    ensures any == Notifies(bus)
    decreases bus, 0
  {
    hide Program, Notifies, Encode, Content, Countable, SlotSeg, Names.Encode, Names.Legal, AmlBuild.Emitted,
          Scopes, Calls;
    hide Walked, Sized;
    ProgramIs(bus);
    SizedParts(Scopes(bus.children, 0), [PcntMethod(bus)]);
    SizedPackage(PcntMethod(bus));
    var nr := 0;
    var queue: seq<Bus> := [];
    ghost var added: seq<byte> := [];
    WalkStarts(bus);
    for i := 0 to |bus.children|
      invariant Walked(bus, i, nr, queue, added)
      invariant parent.buf.data == old(parent.buf.data) + added
    {
      var sec := bus.children[i];
      SegsLegal(sec.devfn);
      Step(bus, i, nr, queue, added);
      var brScope := AmlScope(ScopePath(sec.devfn));
      if sec.isRoot {
        continue;
      }
      ChildSized(bus.children, 0, i);
      var child := BuildChild(brScope, sec);
      nr := nr + if child then 1 else 0;
      if nr > 0 {
        queue := queue + [sec];
        KeptCountable(bus.children, 0, i);
        PackageEmits(Scope(ScopePath(sec.devfn), Program(sec)));
        AmlBuild.AmlAppend(parent, brScope);
        added := added + Encode(Scope(ScopePath(sec.devfn), Program(sec)));
      }
    }
    WalkEnds(bus, nr, queue, added);
    var pcnt := BuildPcnt(bus, queue);
    if bus.bsel.Some? {
      nr := nr + 1;
    }
    AmlBuild.AmlAppend(parent, pcnt);
    LastMethod(Scopes(bus.children, 0), PcntMethod(bus));
    any := nr > 0;
  }

  lemma LastMethod(scopes: seq<Term>, t: Term)
    ensures EncodeAll(scopes + [t]) == EncodeAll(scopes) + Encode(t)
  {
    hide Encode;
    EncodeAllAppend(scopes, [t]);
    assert EncodeAll([t]) == Encode(t) + [];
  }

  lemma WalkStarts(bus: Bus)
    ensures Walked(bus, 0, 0, [], [])
  {
    hide Encode, Program, Scopes, Calls;
    assert bus.children[0..] == bus.children;
  }

  lemma WalkEnds(bus: Bus, nr: nat, queue: seq<Bus>, added: seq<byte>)
    requires Walked(bus, |bus.children|, nr, queue, added)
    ensures added == EncodeAll(Scopes(bus.children, 0)) && QueueCalls(queue) == Calls(bus.children, 0)
    ensures nr > 0 || bus.bsel.Some? <==> Notifies(bus)
  {
    assert bus.children[|bus.children|..] == [];
    assert added + EncodeAll([]) == added && QueueCalls(queue) + [] == QueueCalls(queue);
  }

  /** From the bytes: what the builder leaves is read back as the program, and running it notifies
      exactly the buses below that have a selector. */
  lemma BytesRun(bus: Bus, m: Machine)
    requires DistinctDevfns(bus) && Sized(Program(bus))
    ensures var scope := Decoder.DecodeAll(EncodeAll(Program(bus)), ARITIES);
            scope.Some? && RunScope(scope.value, m) == Some(After(m, Expected(bus)))
  {
    hide Program, RunScope, Expected, Decoder.DecodeAll, WellFormed, AmlBuild.InBoth, EncodeAll, DistinctDevfns;
    ProgramGood(bus);
    assert forall i :: 0 <= i < |Program(bus)| ==> Good(Program(bus)[i]);
    RoundTrip.DecodeEncodeAll(Program(bus), ARITIES);
    Runs(bus, m);
  }
}
