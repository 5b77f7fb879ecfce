/** Decoding inverts encoding for every well-formed term, whatever follows it; so the encoding
    is injective and no term's bytes begin another's. */
module RoundTrip {
  import opened Bytes
  import opened Terms
  import opened Decoder
  import Names
  import PkgLength

  /** `t` is read back in front of anything. */
  ghost predicate Readable(t: Term, arities: Arities) {
    forall s: seq<byte> :: Decode(Encode(t) + s, arities) == Got(t, s)
  }

  ghost predicate AllReadable(ts: seq<Term>, arities: Arities) {
    forall i :: 0 <= i < |ts| ==> Readable(ts[i], arities)
  }

  // ----- lists -----

  lemma {:induction false} ReadSome(ts: seq<Term>, s: seq<byte>, arities: Arities)
    requires AllReadable(ts, arities)
    ensures DecodeSome(EncodeAll(ts) + s, |ts|, arities) == Got(ts, s)
  {
    hide Encode, Decode;
    if ts == [] {
      assert EncodeAll(ts) + s == s;
    } else {
      var more := EncodeAll(ts[1..]) + s;
      assert EncodeAll(ts) + s == Encode(ts[0]) + more;
      assert Readable(ts[0], arities);
      ReadSome(ts[1..], s, arities);
      assert [ts[0]] + ts[1..] == ts;
    }
  }

  lemma {:induction false} ReadAll(ts: seq<Term>, arities: Arities)
    requires AllReadable(ts, arities)
    ensures DecodeAll(EncodeAll(ts), arities) == Some(ts)
  {
    hide Encode, Decode;
    if ts != [] {
      assert Readable(ts[0], arities);
      var more := EncodeAll(ts[1..]);
      assert Decode(Encode(ts[0]) + more, arities) == Got(ts[0], more);
      ReadAll(ts[1..], arities);
      assert [ts[0]] + ts[1..] == ts;
    }
  }

  // ----- leaves -----

  lemma ReadIntBack(v: u64, s: seq<byte>)
    ensures ReadInt(EncodeInt(v) + s) == Got(v, s)
    ensures IntLead(EncodeInt(v)[0])
  {
    PowersOf256();
    var n := if v <= 1 then 0 else if v <= 0xFF then 1 else if v <= 0xFFFF then 2 else if v <= 0xFFFF_FFFF then
          4 else 8;
    if n > 0 {
      LeFits(v, n);
    }
    var bs := EncodeInt(v) + s;
    assert bs[1..] == Le(v, n) + s;
  }

  lemma {:induction false} ReadCharsBack(chars: seq<byte>, s: seq<byte>)
    requires 0 !in chars
    ensures ReadChars(chars + [0x00] + s) == Got(chars, s)
  {
    var bs := chars + [0x00] + s;
    if chars == [] {
      assert bs[1..] == s;
    } else {
      assert bs[0] == chars[0] && chars[0] in chars;
      assert bs[1..] == chars[1..] + [0x00] + s;
      ReadCharsBack(chars[1..], s);
      assert [chars[0]] + chars[1..] == chars;
    }
  }

  lemma ReadPathBack(p: Path, s: seq<byte>)
    requires Names.Legal(p)
    ensures ReadPath(Names.Encode(p) + s) == Got(p, s)
  {
    Names.RoundTrip(p, s);
  }

  /** The parts of the bytes of some field entries. */
  lemma EntryParts(es: seq<FieldEntry>)
    requires es != [] && WellFormedEntry(es[0])
    ensures var bs, length, start := EncodeEntries(es), PkgLength.Encode(es[0].width, false),
          if es[0].Named? then 4 else 1;
            bs[start..] == length + EncodeEntries(es[1..]) && bs[start + |length|..] == EncodeEntries(es[1..])
            && |bs| >= start + |length| && (bs[0] == 0x00 <==> es[0].Reserved?)
                  && (es[0].Named? ==> bs[..4] == es[0].name)
  {
    hide PkgLength.Encode;
    var length, more := PkgLength.Encode(es[0].width, false), EncodeEntries(es[1..]);
    var head := if es[0].Named? then es[0].name else [0x00];
    assert EncodeEntries(es) == head + (length + more);
    assert (head + (length + more))[|head|..] == length + more;
    assert (head + (length + more))[|head| + |length|..] == more;
  }

  lemma {:induction false} ReadEntriesBack(es: seq<FieldEntry>)
    requires forall i :: 0 <= i < |es| ==> WellFormedEntry(es[i])
    ensures ReadEntries(EncodeEntries(es)) == Some(es)
  {
    hide PkgLength.Encode, PkgLength.Decode, EncodeEntries, Names.NameSeg;
    if es == [] {
      NoEntries();
    } else {
      var more := EncodeEntries(es[1..]);
      assert WellFormedEntry(es[0]);
      EntryParts(es);
      PkgLength.RoundTrip(es[0].width, false, more);
      ReadEntriesBack(es[1..]);
      assert [es[0]] + es[1..] == es;
    }
  }

  lemma NoEntries()
    ensures EncodeEntries([]) == []
  {
  }

  lemma Leaf(t: Term, s: seq<byte>, arities: Arities)
    requires t.Int? || t.Ones? || t.Str? || t.Arg? || t.Local?
    requires t.Str? ==> 0 !in t.chars
    ensures Decode(Encode(t) + s, arities) == Got(t, s)
  {
    hide DecodeExtended, DecodeContent, DecodeSome, ReadPath;
    var bs := Encode(t) + s;
    match t {
      case Int(v) => ReadIntBack(v, s);
      case Str(chars) =>
        assert bs[1..] == chars + [0x00] + s;
        ReadCharsBack(chars, s);
      case Ones => assert bs[1..] == s;
      case Arg(_) => assert bs[1..] == s;
      case Local(_) => assert bs[1..] == s;
    }
  }

  // ----- an opcode and its operands -----

  predicate Fixed(t: Term) {
    t.Compare? || t.Unary? || t.Binary? || t.Convert? || t.Store? || t.Notify? || t.CreateField? || t.Mid?
  }

  function FixedShape(t: Term): Shape
    requires Fixed(t)
  {
    match t
    case Compare(op, negated, _, _) => CompareShape(op, negated)
    case Unary(op, _) => UnaryShape(op)
    case Binary(op, _, _, _) => BinaryShape(op)
    case Convert(op, _, _) => ConvertShape(op)
    case Store(_, _) => StoreShape
    case Notify(_, _) => NotifyShape
    case CreateField(_, _, _, _) => CreateFieldShape
    case Mid(_, _, _, _) => MidShape
  }

  function ShapeBytes(shape: Shape): seq<byte> {
    match shape
    case CompareShape(op, negated) => if negated then [0x92, CompareByte(op)] else [CompareByte(op)]
    case UnaryShape(op) => [UnaryByte(op)]
    case BinaryShape(op) => [BinaryByte(op)]
    case ConvertShape(op) => [ConvertByte(op)]
    case StoreShape => [0x70]
    case NotifyShape => [0x86]
    case CreateFieldShape => [0x5B, 0x13]
    case MidShape => [0x9E]
  }

  /** The operands in the order they are written. */
  function Operands(t: Term): (r: seq<Term>)
    requires Fixed(t)
    ensures |r| == Arity(FixedShape(t)) && Build(FixedShape(t), r) == t
    ensures forall i :: 0 <= i < |r| ==> r[i] < t
  {
    match t
    case Compare(_, _, left, right) => [left, right]
    case Unary(_, a) => [a]
    case Binary(_, target, a, b) => [a, b, target]
    case Convert(_, target, a) => [a, target]
    case Store(destination, source) => [source, destination]
    case Notify(what, code) => [what, code]
    case CreateField(name, source, index, num) => [source, index, num, name]
    case Mid(source, index, length, result) => [source, index, length, result]
  }

  lemma ReadShapeBack(shape: Shape, s: seq<byte>)
    ensures ReadShape(ShapeBytes(shape) + s) == Got(shape, s)
  {
    var bs := ShapeBytes(shape) + s;
    match shape {
      case CompareShape(_, negated) =>
        assert bs[if negated then 2 else 1..] == s;
      case CreateFieldShape =>
        assert bs[2..] == s;
      case UnaryShape(_) => assert bs[1..] == s;
      case BinaryShape(_) => assert bs[1..] == s;
      case _ => assert bs[1..] == s;
    }
  }

  lemma EncodeCons(t: Term, ts: seq<Term>)
    ensures EncodeAll([t] + ts) == Encode(t) + EncodeAll(ts)
  {
    hide Encode;
    assert ([t] + ts)[0] == t && ([t] + ts)[1..] == ts;
  }

  lemma EncodeTwo(a: Term, b: Term)
    ensures EncodeAll([a]) == Encode(a) && EncodeAll([a, b]) == Encode(a) + Encode(b)
  {
    hide Encode, EncodeAll;
    NoTerms();
    EncodeCons(a, []);
    EncodeCons(b, []);
    EncodeCons(a, [b]);
    assert [a] + [] == [a] && [b] + [] == [b] && [a] + [b] == [a, b];
    assert Encode(a) + [] == Encode(a) && Encode(b) + [] == Encode(b);
  }

  lemma NoTerms()
    ensures EncodeAll([]) == []
  {
  }

  lemma EncodeFew(ts: seq<Term>)
    ensures |ts| == 1 ==> EncodeAll(ts) == Encode(ts[0])
    ensures |ts| == 2 ==> EncodeAll(ts) == Encode(ts[0]) + Encode(ts[1])
    ensures |ts| == 3 ==> EncodeAll(ts) == Encode(ts[0]) + Encode(ts[1]) + Encode(ts[2])
    ensures |ts| == 4 ==> EncodeAll(ts) == Encode(ts[0]) + Encode(ts[1]) + Encode(ts[2]) + Encode(ts[3])
  {
    hide Encode, EncodeAll;
    if |ts| == 1 || |ts| == 2 {
      EncodeTwo(ts[0], ts[|ts| - 1]);
      assert ts == if |ts| == 1 then [ts[0]] else [ts[0], ts[1]];
    } else if |ts| == 3 || |ts| == 4 {
      var n := |ts|;
      EncodeTwo(ts[n - 2], ts[n - 1]);
      var last := [ts[n - 2], ts[n - 1]];
      EncodeCons(ts[n - 3], last);
      if n == 3 {
        assert ts == [ts[0]] + last;
        Regroup(Encode(ts[0]), Encode(ts[1]), Encode(ts[2]), [], []);
      } else {
        EncodeCons(ts[0], [ts[1]] + last);
        assert ts == [ts[0]] + ([ts[1]] + last);
        Regroup(Encode(ts[1]), Encode(ts[2]), Encode(ts[3]), [], []);
        Regroup(Encode(ts[0]), Encode(ts[1]), Encode(ts[2]), Encode(ts[3]), []);
      }
    }
  }

  /** Concatenations regrouped. */
  lemma Regroup(op: seq<byte>, a: seq<byte>, b: seq<byte>, c: seq<byte>, d: seq<byte>)
    ensures op + a + b == op + (a + b)
    ensures op + a + b + c == op + (a + b + c)
    ensures op + a + b + c + d == op + (a + b + c + d)
  {
  }

  lemma TwoOperandBytes(t: Term)
    requires t.Compare? || t.Unary? || t.Convert? || t.Store? || t.Notify?
    ensures Encode(t) == ShapeBytes(FixedShape(t)) + EncodeAll(Operands(t))
  {
    hide CompareByte, UnaryByte, ConvertByte, EncodeAll;
    var ts, op := Operands(t), ShapeBytes(FixedShape(t));
    EncodeFew(ts);
    if |ts| == 2 {
      Regroup(op, Encode(ts[0]), Encode(ts[1]), [], []);
    }
  }

  lemma BinaryBytes(t: Term)
    requires t.Binary?
    ensures Encode(t) == ShapeBytes(FixedShape(t)) + EncodeAll(Operands(t))
  {
    hide BinaryByte, EncodeAll;
    EncodeFew([t.a, t.b, t.target]);
    Regroup([BinaryByte(t.binary)], Encode(t.a), Encode(t.b), Encode(t.target), []);
  }

  lemma FourOperandBytes(t: Term)
    requires t.CreateField? || t.Mid?
    ensures Encode(t) == ShapeBytes(FixedShape(t)) + EncodeAll(Operands(t))
  {
    hide EncodeAll;
    var ts, op := Operands(t), ShapeBytes(FixedShape(t));
    EncodeFew(ts);
    Regroup(op, Encode(ts[0]), Encode(ts[1]), Encode(ts[2]), Encode(ts[3]));
  }

  lemma FixedBytes(t: Term)
    requires Fixed(t)
    ensures Encode(t) == ShapeBytes(FixedShape(t)) + EncodeAll(Operands(t))
  {
    hide Encode, EncodeAll, ShapeBytes;
    if t.Binary? {
      BinaryBytes(t);
    } else if t.CreateField? || t.Mid? {
      FourOperandBytes(t);
    } else {
      TwoOperandBytes(t);
    }
  }

  lemma FixedBack(shape: Shape, operands: seq<Term>, s: seq<byte>, arities: Arities)
    requires |operands| == Arity(shape) && AllReadable(operands, arities)
    ensures Decode(ShapeBytes(shape) + EncodeAll(operands) + s, arities) == Got(Build(shape, operands), s)
  {
    hide Encode, EncodeAll, ReadShape, DecodeExtended, DecodeContent, DecodeSome, ReadPath, Build;
    var more := EncodeAll(operands) + s;
    assert ShapeBytes(shape) + EncodeAll(operands) + s == ShapeBytes(shape) + more;
    ReadShapeBack(shape, more);
    ReadSome(operands, s, arities);
  }

  // ----- names and declarations -----

  lemma NameLead(p: Path, s: seq<byte>)
    requires Names.Legal(p)
    ensures var b := (Names.Encode(p) + s)[0];
            b == 0x5C || b == 0x5E || b == 0x2E || b == 0x2F || Names.LeadChar(b)
  {
    Names.ReadNamePathRoundTrip(p.segs, s);
    assert Names.NameSeg(p.segs[0]);
  }

  lemma CallBack(name: Path, args: seq<Term>, s: seq<byte>, arities: Arities)
    requires Names.Legal(name) && |args| == ArityOf(arities, name) && AllReadable(args, arities)
    ensures Decode(Names.Encode(name) + EncodeAll(args) + s, arities) == Got(MethodCall(name, args), s)
  {
    hide Encode, EncodeAll, DecodeExtended, DecodeContent, DecodeSome, ReadPath, Names.Encode;
    var more := EncodeAll(args) + s;
    assert Names.Encode(name) + EncodeAll(args) + s == Names.Encode(name) + more;
    NameLead(name, more);
    ReadPathBack(name, more);
    ReadSome(args, s, arities);
  }

  lemma NameDeclBack(path: Path, inner: Term, s: seq<byte>, arities: Arities)
    requires Names.Legal(path) && Readable(inner, arities)
    ensures Decode([0x08] + Names.Encode(path) + Encode(inner) + s, arities) == Got(NameDecl(path, inner), s)
  {
    hide Encode, DecodeExtended, DecodeContent, DecodeSome, ReadPath, Names.Encode;
    var more := Encode(inner) + s;
    assert ([0x08] + Names.Encode(path) + Encode(inner) + s)[1..] == Names.Encode(path) + more;
    ReadPathBack(path, more);
  }

  /** What follows ExtOpPrefix, an opcode and a name. */
  lemma ExtendedBack(op: byte, path: Path, tail: seq<byte>, s: seq<byte>, t: Term, arities: Arities)
    requires Names.Legal(path) && op !in {0x13, 0x81, 0x82}
    requires DecodeExtended(op, Names.Encode(path) + (tail + s), arities) == Got(t, s)
    ensures Decode([0x5B, op] + Names.Encode(path) + tail + s, arities) == Got(t, s)
  {
    hide Encode, DecodeExtended, DecodeContent, DecodeSome, ReadPath, Names.Encode;
    assert ([0x5B, op] + Names.Encode(path) + tail + s)[2..] == Names.Encode(path) + (tail + s);
  }

  lemma MutexBack(path: Path, level: byte, s: seq<byte>, arities: Arities)
    requires Names.Legal(path)
    ensures Decode([0x5B, 0x01] + Names.Encode(path) + [level] + s, arities) == Got(Mutex(path, level), s)
  {
    hide Decode, ReadPath, Names.Encode;
    ReadPathBack(path, [level] + s);
    ExtendedBack(0x01, path, [level], s, Mutex(path, level), arities);
  }

  lemma AcquireBack(path: Path, timeout: u16, s: seq<byte>, arities: Arities)
    requires Names.Legal(path)
    ensures Decode([0x5B, 0x23] + Names.Encode(path) + Le(timeout, 2) + s, arities) == Got(Acquire(path, timeout), s)
  {
    hide Decode, ReadPath, Names.Encode, Le;
    ReadPathBack(path, Le(timeout, 2) + s);
    PowersOf256();
    LeFits(timeout, 2);
    ExtendedBack(0x23, path, Le(timeout, 2), s, Acquire(path, timeout), arities);
  }

  lemma ReleaseBack(path: Path, s: seq<byte>, arities: Arities)
    requires Names.Legal(path)
    ensures Decode([0x5B, 0x27] + Names.Encode(path) + s, arities) == Got(Release(path), s)
  {
    hide Decode, ReadPath, Names.Encode;
    ReadPathBack(path, s);
    assert [] + s == s;
    ExtendedBack(0x27, path, [], s, Release(path), arities);
    assert [0x5B, 0x27] + Names.Encode(path) + [] == [0x5B, 0x27] + Names.Encode(path);
  }

  lemma OpRegionBack(path: Path, space: RegionSpace, args: seq<Term>, s: seq<byte>, arities: Arities)
    requires Names.Legal(path) && |args| == 2 && AllReadable(args, arities)
    ensures Decode([0x5B, 0x80] + Names.Encode(path) + ([space] + EncodeAll(args)) + s, arities)
            == Got(OpRegion(path, space, args[0], args[1]), s)
  {
    hide Decode, DecodeSome, Encode, EncodeAll, ReadPath, Names.Encode;
    var tail := [space] + EncodeAll(args);
    ReadPathBack(path, tail + s);
    ReadSome(args, s, arities);
    assert (tail + s)[1..] == EncodeAll(args) + s;
    ExtendedBack(0x80, path, tail, s, OpRegion(path, space, args[0], args[1]), arities);
  }

  // ----- packaged terms -----

  /** The elements of a package that are not names. */
  function DataParts(ts: seq<Term>): (r: seq<Term>)
    ensures forall i :: 0 <= i < |r| ==> r[i] in ts && !r[i].MethodCall?
  {
    if ts == [] then [] else (if ts[0].MethodCall? then [] else [ts[0]]) + DataParts(ts[1..])
  }

  /** The subterms of a packaged term that are read as terms. */
  function Parts(t: Term): (r: seq<Term>)
    requires Packaged(t)
    ensures forall i :: 0 <= i < |r| ==> r[i] < t
  {
    match t
    case VarPackage(data) => [data]
    case Buffer(size, _) => [size]
    case Field(_, _, _, _, _) => []
    case If(condition, children) => [condition] + children
    case While(condition, children) => [condition] + children
    case Package(children) => DataParts(children)
    case Scope(_, children) => children
    case Device(_, children) => children
    case Method(_, _, _, children) => children
    case Else(children) => children
  }

  lemma FieldFlagsBack(access: AccessType, lock: bool, update: UpdateRule)
    ensures var flags := FieldFlags(access, lock, update);
            flags % 16 == access && flags / 16 % 2 == Bit(lock) && flags / 32 == update
  {
  }

  /** What is read of a field once its path has been read. */
  lemma FieldRestBack(access: AccessType, lock: bool, update: UpdateRule, entries: seq<FieldEntry>)
    requires forall i :: 0 <= i < |entries| ==> WellFormedEntry(entries[i])
    ensures var more := [FieldFlags(access, lock, update)] + EncodeEntries(entries);
            && more[0] % 16 == access && (more[0] / 16 % 2 == 1) == lock && more[0] / 32 == update
            && ReadEntries(more[1..]) == Some(entries)
  {
    hide ReadEntries, EncodeEntries, FieldFlags;
    FieldFlagsBack(access, lock, update);
    var more := [FieldFlags(access, lock, update)] + EncodeEntries(entries);
    ReadEntriesBack(entries);
    assert more[1..] == EncodeEntries(entries);
  }

  lemma FieldBack(path: Path, access: AccessType, lock: bool, update: UpdateRule, entries: seq<FieldEntry>)
    requires Names.Legal(path) && forall i :: 0 <= i < |entries| ==> WellFormedEntry(entries[i])
    ensures DecodeField(Names.Encode(path) + [FieldFlags(access, lock, update)] + EncodeEntries(entries))
            == Some(Field(path, access, lock, update, entries))
  {
    hide ReadPath, Names.Encode, Names.Legal, ReadEntries, EncodeEntries, FieldFlags, WellFormedEntry;
    FieldRestBack(access, lock, update, entries);
    var more := [FieldFlags(access, lock, update)] + EncodeEntries(entries);
    assert Names.Encode(path) + [FieldFlags(access, lock, update)] + EncodeEntries(entries) == Names.Encode(path)
          + more;
    ReadPathBack(path, more);
  }

  lemma MethodBack(path: Path, argCount: byte, serialized: bool, children: seq<Term>, arities: Arities)
    requires Names.Legal(path) && argCount <= 7 && AllReadable(children, arities)
    ensures DecodeContent(0x14, Names.Encode(path) + [MethodFlags(argCount, serialized)] + EncodeAll(children), arities)
            == Some(Method(path, argCount, serialized, children))
  {
    hide Encode, EncodeAll, Decode, DecodeAll, ReadPath, Names.Encode;
    var more := [MethodFlags(argCount, serialized)] + EncodeAll(children);
    assert Names.Encode(path) + [MethodFlags(argCount, serialized)] + EncodeAll(children) == Names.Encode(path) + more;
    ReadPathBack(path, more);
    ReadAll(children, arities);
    assert more[1..] == EncodeAll(children);
  }

  lemma NamedBack(op: byte, path: Path, children: seq<Term>, arities: Arities)
    requires op == 0x10 || op == 0x82
    requires Names.Legal(path) && AllReadable(children, arities)
    ensures DecodeContent(op, Names.Encode(path) + EncodeAll(children), arities)
            == Some(if op == 0x10 then Scope(path, children) else Device(path, children))
  {
    hide Encode, EncodeAll, Decode, DecodeAll, ReadPath, Names.Encode;
    ReadPathBack(path, EncodeAll(children));
    ReadAll(children, arities);
  }

  lemma ConditionalBack(op: byte, condition: Term, children: seq<Term>, arities: Arities)
    requires op == 0xA0 || op == 0xA2
    requires Readable(condition, arities) && AllReadable(children, arities)
    ensures DecodeContent(op, Encode(condition) + EncodeAll(children), arities)
            == Some(if op == 0xA0 then If(condition, children) else While(condition, children))
  {
    hide Encode, EncodeAll, Decode, DecodeAll, ReadPath, Names.Encode;
    ReadAll(children, arities);
  }

  predicate Elements(ts: seq<Term>) {
    forall i :: 0 <= i < |ts| ==> if ts[i].MethodCall? then NamedElement(ts[i]) else DataObject(ts[i])
  }

  lemma DataLeads(t: Term)
    requires DataObject(t)
    ensures Encode(t) != [] && DataLead(Encode(t)[0])
  {
    if t.Int? {
      ReadIntBack(t.value, []);
    } else if Packaged(t) {
      hide Encode, Content;
      PackagedBytes(t);
    }
  }

  lemma NameBack(t: Term, s: seq<byte>)
    requires t.MethodCall? && NamedElement(t)
    ensures Encode(t) + s != [] && !DataLead((Encode(t) + s)[0]) && ReadName(Encode(t) + s) == Got(t, s)
  {
    hide Names.Encode, ReadPath, Names.Legal;
    NoTerms();
    assert Encode(t) == Names.Encode(t.name) + [] == Names.Encode(t.name);
    NameLead(t.name, s);
    ReadPathBack(t.name, s);
    NameNotEmpty(t.name);
  }

  lemma NameNotEmpty(p: Path)
    requires Names.Legal(p)
    ensures Names.Encode(p) != []
  {
    Names.ConcatLength(p.segs);
  }

  /** One element in front of anything. */
  lemma ElementBack(t: Term, more: seq<byte>, arities: Arities)
    requires if t.MethodCall? then NamedElement(t) else DataObject(t) && Readable(t, arities)
    ensures var bs := Encode(t) + more;
            bs != [] && (if DataLead(bs[0]) then Decode(bs, arities) else ReadName(bs)) == Got(t, more)
  {
    hide Encode, Decode, DataLead, NamedElement, DataObject, ReadName;
    if t.MethodCall? {
      NameBack(t, more);
    } else {
      assert Decode(Encode(t) + more, arities) == Got(t, more);
      DataLeads(t);
      assert (Encode(t) + more)[0] == Encode(t)[0];
    }
  }

  lemma PartsAfter(ts: seq<Term>, arities: Arities)
    requires ts != [] && AllReadable(DataParts(ts), arities)
    ensures AllReadable(DataParts(ts[1..]), arities) && (!ts[0].MethodCall? ==> Readable(ts[0], arities))
  {
    hide Readable;
    var own := if ts[0].MethodCall? then [] else [ts[0]];
    assert DataParts(ts) == own + DataParts(ts[1..]);
    assert forall i :: 0 <= i < |DataParts(ts[1..])| ==> DataParts(ts[1..])[i] == DataParts(ts)[|own| + i];
    assert !ts[0].MethodCall? ==> DataParts(ts)[0] == ts[0];
  }

  lemma {:induction false} ReadElements(ts: seq<Term>, arities: Arities)
    requires Elements(ts) && AllReadable(DataParts(ts), arities)
    ensures DecodeElements(EncodeAll(ts), arities) == Some(ts)
  {
    hide Encode, Decode, DataLead, NamedElement, DataObject, ReadName, Readable, AllReadable, DataParts;
    if ts != [] {
      PartsAfter(ts, arities);
      ReadElements(ts[1..], arities);
      ElementBack(ts[0], EncodeAll(ts[1..]), arities);
      assert [ts[0]] + ts[1..] == ts;
    }
  }

  lemma PackageBack(children: seq<Term>, arities: Arities)
    requires |children| <= 255 && Elements(children) && AllReadable(DataParts(children), arities)
    ensures DecodeContent(0x12, [|children|] + EncodeAll(children), arities) == Some(Package(children))
  {
    hide Encode, EncodeAll, Decode, DecodeElements, ReadPath, Elements, DataParts;
    ReadElements(children, arities);
    assert ([|children|] + EncodeAll(children))[1..] == EncodeAll(children);
  }

  /** Contents that are read as one term, or as a list of terms. */
  lemma SingleBack(t: Term, bytes: seq<byte>, arities: Arities)
    requires Readable(t, arities)
    ensures DecodeContent(0x13, Encode(t), arities) == Some(VarPackage(t))
    ensures DecodeContent(0x11, Encode(t) + bytes, arities) == Some(Buffer(t, bytes))
  {
    hide Encode, Decode, DecodeAll, ReadPath;
    assert Encode(t) + [] == Encode(t);
  }

  lemma ElseBack(children: seq<Term>, arities: Arities)
    requires AllReadable(children, arities)
    ensures DecodeContent(0xA1, EncodeAll(children), arities) == Some(Else(children))
  {
    hide Encode, EncodeAll, Decode, DecodeAll, ReadPath;
    ReadAll(children, arities);
  }

  lemma ContentBack(t: Term, arities: Arities)
    requires Packaged(t) && WellFormed(t, arities) && AllReadable(Parts(t), arities)
    ensures (if t.Field? then DecodeField(Content(t)) else DecodeContent(PackageByte(t), Content(t),
          arities)) == Some(t)
  {
    hide Encode, EncodeAll, DecodeContent, DecodeField, Names.Encode, EncodeEntries, Names.Legal, Countable, Readable,
         WellFormedEntry, FieldFlags, MethodFlags, NamedElement, DataObject;
    match t {
      case Field(path, access, lock, update, entries) => FieldBack(path, access, lock, update, entries);
      case Method(path, argCount, serialized, children) => MethodBack(path, argCount, serialized, children, arities);
      case Package(children) => PackageBack(children, arities);
      case VarPackage(data) =>
        assert Readable(Parts(t)[0], arities);
        SingleBack(data, [], arities);
      case Buffer(size, bytes) =>
        assert Readable(Parts(t)[0], arities);
        SingleBack(size, bytes, arities);
      case Else(children) => ElseBack(children, arities);
      case If(condition, children) =>
        assert Readable(Parts(t)[0], arities);
        assert Parts(t)[1..] == children;
        ConditionalBack(0xA0, condition, children, arities);
      case While(condition, children) =>
        assert Readable(Parts(t)[0], arities);
        assert Parts(t)[1..] == children;
        ConditionalBack(0xA2, condition, children, arities);
      case Scope(path, children) => NamedBack(0x10, path, children, arities);
      case Device(path, children) => NamedBack(0x82, path, children, arities);
    }
  }

  /** A package is read by delimiting its content and reading that. */
  lemma DelimitedBack(op: byte, content: seq<byte>, t: Term, s: seq<byte>, arities: Arities)
    requires |content| + 4 < 0x1000_0000
    requires op == 0x81 || op == 0x82 || PackageLead(op)
    requires (if op == 0x81 then DecodeField(content) else DecodeContent(op, content, arities)) == Some(t)
    ensures Decode(Pkg(if PackageLead(op) then [op] else [0x5B, op], content) + s, arities) == Got(t, s)
  {
    hide Encode, DecodeField, DecodeContent, DecodeSome, ReadPath, PkgLength.Encode, PkgLength.Delimited;
    PkgLength.DelimitedRoundTrip(content, s);
    var lead := if PackageLead(op) then [op] else [0x5B, op];
    assert (Pkg(lead, content) + s)[|lead|..] == PkgLength.Encode(|content|, true) + content + s;
  }

  lemma PackagedBytes(t: Term)
    requires Packaged(t)
    ensures var op := PackageByte(t);
            Encode(t) == Pkg(if PackageLead(op) then [op] else [0x5B, op], Content(t))
    ensures PackageByte(t) == 0x81 <==> t.Field?
  {
    hide Content, Pkg;
  }

  lemma CountableContent(t: Term, arities: Arities)
    requires Packaged(t) && WellFormed(t, arities)
    ensures |Content(t)| + 4 < 0x1000_0000
  {
    hide Content, Encode;
  }

  lemma PackagedBack(t: Term, s: seq<byte>, arities: Arities)
    requires Packaged(t) && WellFormed(t, arities) && AllReadable(Parts(t), arities)
    ensures Decode(Encode(t) + s, arities) == Got(t, s)
  {
    hide Content, Pkg, Encode, Decode, DecodeContent, DecodeField, WellFormed;
    ContentBack(t, arities);
    PackagedBytes(t);
    CountableContent(t, arities);
    DelimitedBack(PackageByte(t), Content(t), t, s, arities);
  }

  // ----- the theorems -----

  lemma {:induction false} AllBack(ts: seq<Term>, arities: Arities)
    requires forall i :: 0 <= i < |ts| ==> WellFormed(ts[i], arities)
    ensures AllReadable(ts, arities)
    decreases ts
  {
    forall i | 0 <= i < |ts|
      ensures Readable(ts[i], arities)
    {
      forall s: seq<byte>
        ensures Decode(Encode(ts[i]) + s, arities) == Got(ts[i], s)
      {
        DecodeEncode(ts[i], s, arities);
      }
    }
  }

  /** The terms directly inside a term. */
  function Subterms(t: Term): (r: seq<Term>)
    ensures forall i :: 0 <= i < |r| ==> r[i] < t
  {
    if Fixed(t) then Operands(t)
    else if Packaged(t) then Parts(t)
    else
      match t
      case MethodCall(_, args) => args
      case NameDecl(_, inner) => [inner]
      case OpRegion(_, _, offset, length) => [offset, length]
      case _ => []
  }

  lemma OperandsWellFormed(t: Term, arities: Arities)
    requires Fixed(t) && WellFormed(t, arities)
    ensures forall i :: 0 <= i < |Operands(t)| ==> WellFormed(Operands(t)[i], arities)
  {
  }

  lemma PartsWellFormed(t: Term, arities: Arities)
    requires Packaged(t) && WellFormed(t, arities)
    ensures forall i :: 0 <= i < |Parts(t)| ==> WellFormed(Parts(t)[i], arities)
  {
    hide Content, Countable, Names.Legal, WellFormedEntry;
  }

  lemma OthersWellFormed(t: Term, arities: Arities)
    requires !Fixed(t) && !Packaged(t) && WellFormed(t, arities)
    ensures forall i :: 0 <= i < |Subterms(t)| ==> WellFormed(Subterms(t)[i], arities)
  {
    hide Names.Legal;
  }

  lemma SubtermsWellFormed(t: Term, arities: Arities)
    requires WellFormed(t, arities)
    ensures forall i :: 0 <= i < |Subterms(t)| ==> WellFormed(Subterms(t)[i], arities)
  {
    hide WellFormed, Operands, Parts;
    if Fixed(t) {
      OperandsWellFormed(t, arities);
    } else if Packaged(t) {
      PartsWellFormed(t, arities);
    } else {
      OthersWellFormed(t, arities);
    }
  }

  lemma NameDeclaredBack(t: Term, s: seq<byte>, arities: Arities)
    requires t.NameDecl? && Names.Legal(t.path) && Readable(t.inner, arities)
    ensures Decode(Encode(t) + s, arities) == Got(t, s)
  {
    hide Decode, EncodeAll, Names.Encode, Names.Legal, Readable;
    NameDeclBack(t.path, t.inner, s, arities);
  }

  lemma RegionBack(t: Term, s: seq<byte>, arities: Arities)
    requires t.OpRegion? && Names.Legal(t.path) && AllReadable([t.offset, t.length], arities)
    ensures Decode(Encode(t) + s, arities) == Got(t, s)
  {
    hide Decode, EncodeAll, Names.Encode, Names.Legal, AllReadable;
    OpRegionBack(t.path, t.space, [t.offset, t.length], s, arities);
    EncodeTwo(t.offset, t.length);
    assert Encode(t) == [0x5B, 0x80] + Names.Encode(t.path) + ([t.space] + EncodeAll([t.offset, t.length]));
  }

  lemma DeclarationBack(t: Term, s: seq<byte>, arities: Arities)
    requires (t.NameDecl? || t.OpRegion?) && WellFormed(t, arities) && AllReadable(Subterms(t), arities)
    ensures Decode(Encode(t) + s, arities) == Got(t, s)
  {
    hide Decode, Encode, EncodeAll, Names.Legal;
    if t.NameDecl? {
      assert Subterms(t)[0] == t.inner;
      NameDeclaredBack(t, s, arities);
    } else {
      RegionBack(t, s, arities);
    }
  }

  lemma SyncBack(t: Term, s: seq<byte>, arities: Arities)
    requires (t.Mutex? || t.Acquire? || t.Release?) && WellFormed(t, arities)
    ensures Decode(Encode(t) + s, arities) == Got(t, s)
  {
    hide Decode, Names.Encode, Names.Legal, Le;
    if t.Mutex? {
      MutexBack(t.path, t.syncLevel, s, arities);
    } else if t.Acquire? {
      AcquireBack(t.path, t.timeout, s, arities);
    } else {
      ReleaseBack(t.path, s, arities);
    }
  }

  lemma OthersBack(t: Term, s: seq<byte>, arities: Arities)
    requires !Fixed(t) && !Packaged(t) && WellFormed(t, arities)
    requires AllReadable(Subterms(t), arities)
    ensures Decode(Encode(t) + s, arities) == Got(t, s)
  {
    if t.MethodCall? {
      hide Decode, EncodeAll, Names.Encode, Names.Legal;
      CallBack(t.name, t.args, s, arities);
    } else {
      hide Decode, Encode;
      if t.NameDecl? || t.OpRegion? {
        DeclarationBack(t, s, arities);
      } else if t.Mutex? || t.Acquire? || t.Release? {
        SyncBack(t, s, arities);
      } else {
        Leaf(t, s, arities);
      }
    }
  }

  /** AML round trip: decoding the bytes of a well-formed term followed by anything gives exactly
      that term and what followed it. */
  lemma {:induction false} DecodeEncode(t: Term, s: seq<byte>, arities: Arities)
    requires WellFormed(t, arities)
    ensures Decode(Encode(t) + s, arities) == Got(t, s)
    decreases t
  {
    hide Decode, Encode, Content, WellFormed;
    SubtermsWellFormed(t, arities);
    forall i | 0 <= i < |Subterms(t)|
      ensures Readable(Subterms(t)[i], arities)
    {
      PartBack(Subterms(t)[i], t, arities);
    }
    if Fixed(t) {
      assert Subterms(t) == Operands(t);
      FixedBytes(t);
      FixedBack(FixedShape(t), Operands(t), s, arities);
    } else if Packaged(t) {
      assert Subterms(t) == Parts(t);
      PackagedBack(t, s, arities);
    } else {
      OthersBack(t, s, arities);
    }
  }

  lemma {:induction false} PartBack(part: Term, whole: Term, arities: Arities)
    requires part < whole && WellFormed(part, arities)
    ensures Readable(part, arities)
    decreases whole, 0
  {
    forall s: seq<byte>
      ensures Decode(Encode(part) + s, arities) == Got(part, s)
    {
      DecodeEncode(part, s, arities);
    }
  }

  /** No encoding is the beginning of another: equal bytes, with anything after them, come from
      equal terms. */
  lemma PrefixFree(t: Term, t': Term, s: seq<byte>, s': seq<byte>, arities: Arities)
    requires WellFormed(t, arities) && WellFormed(t', arities)
    requires Encode(t) + s == Encode(t') + s'
    ensures t == t' && s == s'
  {
    DecodeEncode(t, s, arities);
    DecodeEncode(t', s', arities);
  }

  /** A whole term list, such as a definition block, is read back. */
  lemma DecodeEncodeAll(ts: seq<Term>, arities: Arities)
    requires AllWellFormed(ts, arities)
    ensures DecodeAll(EncodeAll(ts), arities) == Some(ts)
  {
    AllBack(ts, arities);
    ReadAll(ts, arities);
  }
}
