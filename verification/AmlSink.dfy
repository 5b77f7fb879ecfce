/** src/acpi/aml.rs: every `to_aml_bytes` as a method that pushes into a sink, proved to append
    exactly the bytes the term stands for. */
module AmlSink {
  import opened Bytes
  import opened Terms
  import Names
  import PkgLength

  // ----- integers: each type defers to the next narrower one that fits -----

  method ByteToAmlBytes(v: byte, sink: ByteVec)
    modifies sink
    ensures sink.data == old(sink.data) + EncodeInt(v)
  {
    if v == 0 {
      sink.Push(0x00);
    } else if v == 1 {
      sink.Push(0x01);
    } else {
      sink.Push(0x0A);
      sink.Push(v);
      assert Le(v, 1) == [v] + Le(0, 0);
      assert old(sink.data) + [0x0A] + [v] == old(sink.data) + EncodeInt(v);
    }
  }

  method WordToAmlBytes(v: u16, sink: ByteVec)
    modifies sink
    ensures sink.data == old(sink.data) + EncodeInt(v)
  {
    hide Le;
    if v <= 0xFF {
      ByteToAmlBytes(v, sink);
    } else {
      sink.Push(0x0B);
      sink.AppendIntNoPrefix(v, 2);
      assert old(sink.data) + [0x0B] + Le(v, 2) == old(sink.data) + EncodeInt(v);
    }
  }

  method DWordToAmlBytes(v: u32, sink: ByteVec)
    modifies sink
    ensures sink.data == old(sink.data) + EncodeInt(v)
  {
    hide Le;
    if v <= 0xFFFF {
      WordToAmlBytes(v, sink);
    } else {
      sink.Push(0x0C);
      sink.AppendIntNoPrefix(v, 4);
      assert old(sink.data) + [0x0C] + Le(v, 4) == old(sink.data) + EncodeInt(v);
    }
  }

  method QWordToAmlBytes(v: u64, sink: ByteVec)
    modifies sink
    ensures sink.data == old(sink.data) + EncodeInt(v)
  {
    hide Le;
    if v <= 0xFFFF_FFFF {
      DWordToAmlBytes(v, sink);
    } else {
      sink.Push(0x0E);
      sink.AppendIntNoPrefix(v, 8);
      assert old(sink.data) + [0x0E] + Le(v, 8) == old(sink.data) + EncodeInt(v);
    }
  }

  // ----- terms -----

  /** The tail every term with an explicit length shares: the opcode, the length of the bytes
      gathered so far, those bytes. */
  method PushPackage(op: seq<byte>, bytes: ByteVec, sink: ByteVec)
    requires bytes != sink
    modifies sink
    ensures sink.data == old(sink.data) + Pkg(op, bytes.data)
  {
    var pkgLength := PkgLength.CreatePkgLength(|bytes.data|, true);
    sink.Extend(op);
    sink.Extend(pkgLength);
    sink.Extend(bytes.data);
    assert old(sink.data) + op + pkgLength + bytes.data == old(sink.data) + Pkg(op, bytes.data);
  }

  method AllToAmlBytes(ts: seq<Term>, sink: ByteVec)
    modifies sink
    ensures sink.data == old(sink.data) + EncodeAll(ts)
    decreases ts
  {
    hide Encode;
    for i := 0 to |ts|
      invariant sink.data + EncodeAll(ts[i..]) == old(sink.data) + EncodeAll(ts)
    {
      ToAmlBytes(ts[i], sink);
      assert ts[i..][0] == ts[i] && ts[i..][1..] == ts[i + 1..];
    }
  }

  method FieldEntryToAmlBytes(e: FieldEntry, bytes: ByteVec)
    modifies bytes
    ensures bytes.data == old(bytes.data) + EncodeEntry(e)
  {
    match e {
      case Named(name, _) => bytes.Extend(name);
      case Reserved(_) => bytes.Push(0x00);
    }
    var width := PkgLength.CreatePkgLength(e.width, false);
    hide PkgLength.Encode;
    bytes.Extend(width);
    assert bytes.data == old(bytes.data) + EncodeEntry(e);
  }

  method FieldEntriesToAmlBytes(es: seq<FieldEntry>, bytes: ByteVec)
    modifies bytes
    ensures bytes.data == old(bytes.data) + EncodeEntries(es)
  {
    hide EncodeEntry;
    for i := 0 to |es|
      invariant bytes.data + EncodeEntries(es[i..]) == old(bytes.data) + EncodeEntries(es)
    {
      FieldEntryToAmlBytes(es[i], bytes);
      assert es[i..][0] == es[i] && es[i..][1..] == es[i + 1..];
    }
  }

  /** Scope and Device: a name, then the children. */
  method NamedContent(t: Term, bytes: ByteVec)
    requires t.Scope? || t.Device?
    modifies bytes
    ensures bytes.data == old(bytes.data) + Content(t)
    decreases t, 0
  {
    hide Names.Encode;
    Names.PathToAmlBytes(t.path, bytes);
    AllToAmlBytes(t.children, bytes);
    assert bytes.data == old(bytes.data) + Content(t);
  }

  method MethodContent(t: Term, bytes: ByteVec)
    requires t.Method?
    modifies bytes
    ensures bytes.data == old(bytes.data) + Content(t)
    decreases t, 0
  {
    hide Names.Encode, MethodFlags;
    Names.PathToAmlBytes(t.path, bytes);
    bytes.Push(MethodFlags(t.argCount, t.serialized));
    AllToAmlBytes(t.children, bytes);
    assert bytes.data == old(bytes.data) + Content(t);
  }

  method FieldContent(t: Term, bytes: ByteVec)
    requires t.Field?
    modifies bytes
    ensures bytes.data == old(bytes.data) + Content(t)
  {
    hide Names.Encode, FieldFlags, EncodeEntries;
    Names.PathToAmlBytes(t.path, bytes);
    bytes.Push(FieldFlags(t.access, t.lock, t.update));
    FieldEntriesToAmlBytes(t.entries, bytes);
    assert bytes.data == old(bytes.data) + Content(t);
  }

  /** If and While: the predicate, then the children. */
  method ConditionalContent(t: Term, bytes: ByteVec)
    requires t.If? || t.While?
    modifies bytes
    ensures bytes.data == old(bytes.data) + Content(t)
    decreases t, 0
  {
    ToAmlBytes(t.condition, bytes);
    AllToAmlBytes(t.children, bytes);
    assert bytes.data == old(bytes.data) + Content(t);
  }

  /** Package: the number of elements `as u8`, then the elements. */
  method PackageContent(t: Term, bytes: ByteVec)
    requires t.Package?
    modifies bytes
    ensures bytes.data == old(bytes.data) + Content(t)
    decreases t, 0
  {
    bytes.Push(|t.children| % 256);
    AllToAmlBytes(t.children, bytes);
    assert bytes.data == old(bytes.data) + Content(t);
  }

  /** The buffers: an encoded size, then raw bytes. */
  method BufferContent(t: Term, bytes: ByteVec)
    requires t.Buffer?
    modifies bytes
    ensures bytes.data == old(bytes.data) + Content(t)
    decreases t, 0
  {
    ToAmlBytes(t.size, bytes);
    bytes.Extend(t.bytes);
    assert bytes.data == old(bytes.data) + Content(t);
  }

  /** The `bytes` a term with an explicit length gathers before it knows that length. */
  method ContentToAmlBytes(t: Term, bytes: ByteVec)
    requires Packaged(t)
    modifies bytes
    ensures bytes.data == old(bytes.data) + Content(t)
    decreases t, 1
  {
    hide Encode, EncodeAll;
    match t {
      case Package(_) => PackageContent(t, bytes);
      case VarPackage(data) => ToAmlBytes(data, bytes);
      case Buffer(_, _) => BufferContent(t, bytes);
      case Scope(_, _) => NamedContent(t, bytes);
      case Device(_, _) => NamedContent(t, bytes);
      case Method(_, _, _, _) => MethodContent(t, bytes);
      case Field(_, _, _, _, _) => FieldContent(t, bytes);
      case If(_, _) => ConditionalContent(t, bytes);
      case Else(children) => AllToAmlBytes(children, bytes);
      case While(_, _) => ConditionalContent(t, bytes);
    }
  }

  // ----- one method per impl, or per macro that generates impls -----

  /** compare_op! */
  method CompareToAmlBytes(t: Term, sink: ByteVec)
    requires t.Compare?
    modifies sink
    ensures sink.data == old(sink.data) + Encode(t)
    decreases t, 0
  {
    hide CompareByte, UnaryByte, BinaryByte, ConvertByte, Names.Encode;
    if t.negated {
      sink.Push(0x92);
    }
    sink.Push(CompareByte(t.cmp));
    ToAmlBytes(t.left, sink);
    ToAmlBytes(t.right, sink);
    assert sink.data == old(sink.data) + Encode(t);
  }

  /** object_op! */
  method UnaryToAmlBytes(t: Term, sink: ByteVec)
    requires t.Unary?
    modifies sink
    ensures sink.data == old(sink.data) + Encode(t)
    decreases t, 0
  {
    hide CompareByte, UnaryByte, BinaryByte, ConvertByte, Names.Encode;
    sink.Push(UnaryByte(t.unary));
    ToAmlBytes(t.a, sink);
    assert sink.data == old(sink.data) + Encode(t);
  }

  /** binary_op! */
  method BinaryToAmlBytes(t: Term, sink: ByteVec)
    requires t.Binary?
    modifies sink
    ensures sink.data == old(sink.data) + Encode(t)
    decreases t, 0
  {
    hide CompareByte, UnaryByte, BinaryByte, ConvertByte, Names.Encode;
    sink.Push(BinaryByte(t.binary));
    ToAmlBytes(t.a, sink);
    ToAmlBytes(t.b, sink);
    ToAmlBytes(t.target, sink);
    assert sink.data == old(sink.data) + Encode(t);
  }

  /** convert_op! */
  method ConvertToAmlBytes(t: Term, sink: ByteVec)
    requires t.Convert?
    modifies sink
    ensures sink.data == old(sink.data) + Encode(t)
    decreases t, 0
  {
    hide CompareByte, UnaryByte, BinaryByte, ConvertByte, Names.Encode;
    sink.Push(ConvertByte(t.convert));
    ToAmlBytes(t.a, sink);
    ToAmlBytes(t.target, sink);
    assert sink.data == old(sink.data) + Encode(t);
  }

  /** Store: the value first, then where it goes. */
  method StoreToAmlBytes(t: Term, sink: ByteVec)
    requires t.Store?
    modifies sink
    ensures sink.data == old(sink.data) + Encode(t)
    decreases t, 0
  {
    hide CompareByte, UnaryByte, BinaryByte, ConvertByte, Names.Encode;
    sink.Push(0x70);
    ToAmlBytes(t.source, sink);
    ToAmlBytes(t.destination, sink);
    assert sink.data == old(sink.data) + Encode(t);
  }

  /** Notify */
  method NotifyToAmlBytes(t: Term, sink: ByteVec)
    requires t.Notify?
    modifies sink
    ensures sink.data == old(sink.data) + Encode(t)
    decreases t, 0
  {
    hide CompareByte, UnaryByte, BinaryByte, ConvertByte, Names.Encode;
    sink.Push(0x86);
    ToAmlBytes(t.notified, sink);
    ToAmlBytes(t.code, sink);
    assert sink.data == old(sink.data) + Encode(t);
  }

  /** CreateField */
  method CreateFieldToAmlBytes(t: Term, sink: ByteVec)
    requires t.CreateField?
    modifies sink
    ensures sink.data == old(sink.data) + Encode(t)
    decreases t, 0
  {
    hide CompareByte, UnaryByte, BinaryByte, ConvertByte, Names.Encode;
    sink.Push(0x5B);
    sink.Push(0x13);
    ToAmlBytes(t.source, sink);
    ToAmlBytes(t.bitIndex, sink);
    ToAmlBytes(t.bitNum, sink);
    ToAmlBytes(t.nameString, sink);
    assert sink.data == old(sink.data) + Encode(t);
  }

  /** Mid */
  method MidToAmlBytes(t: Term, sink: ByteVec)
    requires t.Mid?
    modifies sink
    ensures sink.data == old(sink.data) + Encode(t)
    decreases t, 0
  {
    hide CompareByte, UnaryByte, BinaryByte, ConvertByte, Names.Encode;
    sink.Push(0x9E);
    ToAmlBytes(t.source, sink);
    ToAmlBytes(t.index, sink);
    ToAmlBytes(t.length, sink);
    ToAmlBytes(t.result, sink);
    assert sink.data == old(sink.data) + Encode(t);
  }

  /** MethodCall, and Path when there are no arguments. */
  method CallToAmlBytes(t: Term, sink: ByteVec)
    requires t.MethodCall?
    modifies sink
    ensures sink.data == old(sink.data) + Encode(t)
    decreases t, 0
  {
    hide CompareByte, UnaryByte, BinaryByte, ConvertByte, Names.Encode;
    Names.PathToAmlBytes(t.name, sink);
    AllToAmlBytes(t.args, sink);
    assert sink.data == old(sink.data) + Encode(t);
  }

  /** Name::new */
  method NameToAmlBytes(t: Term, sink: ByteVec)
    requires t.NameDecl?
    modifies sink
    ensures sink.data == old(sink.data) + Encode(t)
    decreases t, 0
  {
    hide CompareByte, UnaryByte, BinaryByte, ConvertByte, Names.Encode;
    sink.Push(0x08);
    Names.PathToAmlBytes(t.path, sink);
    ToAmlBytes(t.inner, sink);
    assert sink.data == old(sink.data) + Encode(t);
  }

  /** OpRegion */
  method OpRegionToAmlBytes(t: Term, sink: ByteVec)
    requires t.OpRegion?
    modifies sink
    ensures sink.data == old(sink.data) + Encode(t)
    decreases t, 0
  {
    hide CompareByte, UnaryByte, BinaryByte, ConvertByte, Names.Encode;
    sink.Push(0x5B);
    sink.Push(0x80);
    Names.PathToAmlBytes(t.path, sink);
    sink.Push(t.space);
    ToAmlBytes(t.offset, sink);
    ToAmlBytes(t.length, sink);
    assert sink.data == old(sink.data) + Encode(t);
  }

  /** Mutex */
  method MutexToAmlBytes(t: Term, sink: ByteVec)
    requires t.Mutex?
    modifies sink
    ensures sink.data == old(sink.data) + Encode(t)
    decreases t, 0
  {
    hide CompareByte, UnaryByte, BinaryByte, ConvertByte, Names.Encode;
    sink.Push(0x5B);
    sink.Push(0x01);
    Names.PathToAmlBytes(t.path, sink);
    sink.Push(t.syncLevel);
    assert sink.data == old(sink.data) + Encode(t);
  }

  /** Acquire */
  method AcquireToAmlBytes(t: Term, sink: ByteVec)
    requires t.Acquire?
    modifies sink
    ensures sink.data == old(sink.data) + Encode(t)
    decreases t, 0
  {
    hide CompareByte, UnaryByte, BinaryByte, ConvertByte, Names.Encode;
    sink.Push(0x5B);
    sink.Push(0x23);
    Names.PathToAmlBytes(t.path, sink);
    sink.AppendIntNoPrefix(t.timeout, 2);
    assert sink.data == old(sink.data) + Encode(t);
  }

  /** Release */
  method ReleaseToAmlBytes(t: Term, sink: ByteVec)
    requires t.Release?
    modifies sink
    ensures sink.data == old(sink.data) + Encode(t)
    decreases t, 0
  {
    hide CompareByte, UnaryByte, BinaryByte, ConvertByte, Names.Encode;
    sink.Push(0x5B);
    sink.Push(0x27);
    Names.PathToAmlBytes(t.path, sink);
    assert sink.data == old(sink.data) + Encode(t);
  }

  /** create_aml_string */
  method StrToAmlBytes(chars: seq<byte>, sink: ByteVec)
    modifies sink
    ensures sink.data == old(sink.data) + ([0x0D] + chars + [0x00])
  {
    sink.Push(0x0D);
    sink.Extend(chars);
    sink.Push(0x00);
    assert sink.data == old(sink.data) + ([0x0D] + chars + [0x00]);
  }

  /** `to_aml_bytes`, dispatched on the kind of term. */
  method ToAmlBytes(t: Term, sink: ByteVec)
    modifies sink
    ensures sink.data == old(sink.data) + Encode(t)
    decreases t
  {
    hide EncodeInt, Names.Encode, Content, Pkg;
    match t {
      case Int(v) => QWordToAmlBytes(v, sink);
      case Ones => sink.Push(0xFF);
      case Str(chars) => StrToAmlBytes(chars, sink);
      case Arg(n) => sink.Push(0x68 + n);
      case Local(n) => sink.Push(0x60 + n);
      case MethodCall(_, _) => CallToAmlBytes(t, sink);
      case Compare(_, _, _, _) => CompareToAmlBytes(t, sink);
      case Unary(_, _) => UnaryToAmlBytes(t, sink);
      case Binary(_, _, _, _) => BinaryToAmlBytes(t, sink);
      case Convert(_, _, _) => ConvertToAmlBytes(t, sink);
      case Store(_, _) => StoreToAmlBytes(t, sink);
      case Notify(_, _) => NotifyToAmlBytes(t, sink);
      case CreateField(_, _, _, _) => CreateFieldToAmlBytes(t, sink);
      case Mid(_, _, _, _) => MidToAmlBytes(t, sink);
      case NameDecl(_, _) => NameToAmlBytes(t, sink);
      case OpRegion(_, _, _, _) => OpRegionToAmlBytes(t, sink);
      case Mutex(_, _) => MutexToAmlBytes(t, sink);
      case Acquire(_, _) => AcquireToAmlBytes(t, sink);
      case Release(_) => ReleaseToAmlBytes(t, sink);
      case _ => PackagedToAmlBytes(t, sink);
    }
  }

  method PackagedToAmlBytes(t: Term, sink: ByteVec)
    requires Packaged(t)
    modifies sink
    ensures sink.data == old(sink.data) + Encode(t)
    decreases t, 2
  {
    hide Content, Pkg;
    var bytes := new ByteVec();
    ContentToAmlBytes(t, bytes);
    assert bytes.data == Content(t);
    PushPackage(PackageOp(t), bytes, sink);
  }

  // ----- buffers and packages that are not built from a term -----

  /** BufferTerm: the term is the size, and there is no data. */
  method BufferTermToAmlBytes(data: Term, sink: ByteVec)
    modifies sink
    ensures sink.data == old(sink.data) + Encode(Buffer(data, []))
  {
    hide Pkg;
    var bytes := new ByteVec();
    ToAmlBytes(data, bytes);
    assert bytes.data == Content(Buffer(data, []));
    PushPackage([0x11], bytes, sink);
  }

  /** BufferData: its own length as an integer, then the data. */
  method BufferDataToAmlBytes(data: seq<byte>, sink: ByteVec)
    requires |data| <= U64_MAX
    modifies sink
    ensures sink.data == old(sink.data) + Encode(BufferData(data))
  {
    hide Pkg, EncodeInt;
    var bytes := new ByteVec();
    QWordToAmlBytes(|data|, bytes);
    bytes.Extend(data);
    assert bytes.data == Content(BufferData(data));
    PushPackage([0x11], bytes, sink);
  }

  /** ResourceTemplate: the descriptors and an end tag with a zero checksum form the data; the
      data length and the package length are computed apart. */
  method ResourceTemplateToAmlBytes(descriptors: seq<byte>, sink: ByteVec)
    requires |descriptors| + 2 <= U64_MAX
    modifies sink
    ensures sink.data == old(sink.data) + Encode(BufferData(descriptors + [0x79, 0x00]))
  {
    hide EncodeInt, PkgLength.Encode;
    var bytes := new ByteVec();
    bytes.Extend(descriptors);
    bytes.Push(0x79);
    bytes.Push(0x00);
    assert bytes.data == descriptors + [0x79, 0x00];
    var bufferLength := new ByteVec();
    QWordToAmlBytes(|bytes.data|, bufferLength);
    var pkgLength := PkgLength.CreatePkgLength(|bytes.data| + |bufferLength.data|, true);
    sink.Push(0x11);
    sink.Extend(pkgLength);
    sink.Extend(bufferLength.data);
    sink.Extend(bytes.data);
    assert Content(BufferData(bytes.data)) == bufferLength.data + bytes.data;
    assert sink.data == old(sink.data) + Encode(BufferData(bytes.data));
  }

  /** A package built one element at a time. */
  class PackageBuilder {
    const data: ByteVec
    var elements: nat
    ghost var children: seq<Term>

    ghost predicate Valid()
      reads this, data
    {
      data.data == EncodeAll(children) && elements == |children|
    }

    constructor ()
      ensures Valid() && children == [] && fresh(data)
    {
      data := new ByteVec();
      elements := 0;
      children := [];
    }

    method AddElement(aml: Term)
      requires Valid()
      modifies this, data
      ensures Valid() && children == old(children) + [aml]
    {
      ToAmlBytes(aml, data);
      elements := elements + 1;
      EncodeAllAppend(children, [aml]);
      assert EncodeAll([aml]) == Encode(aml) + EncodeAll([]);
      children := children + [aml];
    }

    /** The same bytes as the Package of all elements added so far. */
    method BuilderToAmlBytes(sink: ByteVec)
      requires Valid() && sink != data
      modifies sink
      ensures sink.data == old(sink.data) + Encode(Package(children))
    {
      hide EncodeAll, PkgLength.Encode;
      var pkgLength := PkgLength.CreatePkgLength(|data.data| + 1, true);
      sink.Push(0x12);
      sink.Extend(pkgLength);
      sink.Push(elements % 256);
      sink.Extend(data.data);
      assert Content(Package(children)) == [elements % 256] + data.data;
      assert sink.data == old(sink.data) + Encode(Package(children));
    }
  }
}
