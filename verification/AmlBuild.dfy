/** aml-build.c: Aml objects whose buffers are mutated, appended into one another, and given
    their opcode and length only when they are appended.  Building a term this way gives the bytes
    the recursive encoder of src/acpi/aml.rs gives. */
module AmlBuild {
  import opened Bytes
  import opened Terms
  import Names
  import PkgLength

  datatype BlockFlags = NoOpcode | Opcode | PackageBlock | ExtPackage | BufferBlock | ResTemplate

  /** build_package, and build_extop_package when the opcode has a prefix; `len` is unsigned. */
  function CPkg(op: seq<byte>, content: seq<byte>): seq<byte> {
    op + PkgLength.CEncode(PkgLength.Wrap32(|content|), true) + content
  }

  /** build_buffer */
  function CBuffer(op: byte, data: seq<byte>): seq<byte> {
    CPkg([op], EncodeInt(|data| % 0x1_0000_0000) + data)
  }

  /** What aml_append adds to the parent for a child with this buffer. */
  function Emitted(buf: seq<byte>, op: byte, flags: BlockFlags): seq<byte> {
    match flags
    case NoOpcode => buf
    case Opcode => [op] + buf
    case PackageBlock => CPkg([op], buf)
    case ExtPackage => CPkg([0x5B, op], buf)
    case BufferBlock => CBuffer(op, buf)
    case ResTemplate => CBuffer(op, buf + [0x79, 0x00])
  }

  class AmlNode {
    const buf: ByteVec
    const op: byte
    const flags: BlockFlags

    constructor (op: byte, flags: BlockFlags)
      ensures this.op == op && this.flags == flags && fresh(buf) && buf.data == []
    {
      this.op := op;
      this.flags := flags;
      buf := new ByteVec();
    }

    /** What appending this node adds. */
    ghost function Emit(): seq<byte>
      reads buf
    {
      Emitted(buf.data, op, flags)
    }
  }

  /** build_append_int */
  method BuildAppendInt(table: ByteVec, value: u64)
    modifies table
    ensures table.data == old(table.data) + EncodeInt(value)
  {
    hide Le;
    if value == 0x00 {
      table.Push(0x00);
    } else if value == 0x01 {
      table.Push(0x01);
    } else if value <= 0xFF {
      table.Push(0x0A);
      table.AppendIntNoPrefix(value, 1);
    } else if value <= 0xFFFF {
      table.Push(0x0B);
      table.AppendIntNoPrefix(value, 2);
    } else if value <= 0xFFFF_FFFF {
      table.Push(0x0C);
      table.AppendIntNoPrefix(value, 4);
    } else {
      table.Push(0x0E);
      table.AppendIntNoPrefix(value, 8);
    }
    assert table.data == old(table.data) + EncodeInt(value);
  }

  /** build_package and build_extop_package: the length and then the opcode go in front. */
  method BuildPackage(package: ByteVec, op: seq<byte>)
    modifies package
    ensures package.data == CPkg(op, old(package.data))
  {
    hide PkgLength.CEncode;
    PkgLength.BuildPrependPackageLength(package, PkgLength.Wrap32(|package.data|), true);
    package.PrependVals(op);
    assert package.data == CPkg(op, old(package.data));
  }

  method BuildBuffer(table: ByteVec, op: byte)
    modifies table
    ensures table.data == CBuffer(op, old(table.data))
  {
    var data := new ByteVec();
    BuildAppendInt(data, |table.data| % 0x1_0000_0000);
    assert data.data == EncodeInt(|table.data| % 0x1_0000_0000);
    table.PrependVals(data.data);
    BuildPackage(table, [op]);
  }

  /** aml_append: works on a copy of the child's buffer, so only the parent changes, what the
      parent held stays in front, and one child can be appended many times, even to itself. */
  method AmlAppend(parent: AmlNode, child: AmlNode)
    modifies parent.buf
    ensures parent.buf.data == old(parent.buf.data) + old(child.Emit())
    ensures child.flags == ResTemplate && child.op == 0x11 && |old(child.buf.data)| < 0x0FFF_FFF9 ==>
              parent.buf.data == old(parent.buf.data) + Encode(BufferData(old(child.buf.data) + [0x79, 0x00]))
  {
    hide CPkg, CBuffer;
    ghost var template := child.buf.data;
    var buf := new ByteVec();
    buf.Extend(child.buf.data);
    assert buf.data == old(child.buf.data);
    match child.flags {
      case Opcode => parent.buf.Push(child.op);
      case ExtPackage => BuildPackage(buf, [0x5B, child.op]);
      case PackageBlock => BuildPackage(buf, [child.op]);
      case ResTemplate =>
        buf.Push(0x79);
        buf.Push(0x00);
        assert buf.data == old(child.buf.data) + [0x79, 0x00];
        BuildBuffer(buf, child.op);
      case BufferBlock => BuildBuffer(buf, child.op);
      case NoOpcode =>
    }
    parent.buf.Extend(buf.data);
    assert parent.buf.data == old(parent.buf.data) + old(child.Emit());
    if child.flags == ResTemplate && child.op == 0x11 && |template| < 0x0FFF_FFF9 {
      TemplateEmits(template);
    }
  }

  /** A resource template appended by the C builder has the bytes of the Rust one: a buffer of its
      descriptors, the end tag and a checksum byte that is always accepted. */
  lemma TemplateEmits(descriptors: seq<byte>)
    requires |descriptors| < 0x0FFF_FFF9
    ensures Emitted(descriptors, 0x11, ResTemplate) == Encode(BufferData(descriptors + [0x79, 0x00]))
  {
    hide EncodeInt, CPkg, Pkg;
    var data := descriptors + [0x79, 0x00];
    ModUnique(|data|, 0x1_0000_0000, 0, |data|);
    IntShort(|data|);
    assert Content(BufferData(data)) == EncodeInt(|data|) + data;
    SamePackage([0x11], Content(BufferData(data)));
  }

  lemma IntShort(v: u32)
    ensures |EncodeInt(v)| <= 5
  {
  }

  /** aml_resource_template, before anything is appended. */
  method AmlResourceTemplate() returns (v: AmlNode)
    ensures fresh(v) && fresh(v.buf) && v.Emit() == [0x11, 0x05, 0x0A, 0x02, 0x79, 0x00]
  {
    v := new AmlNode(0x11, ResTemplate);
    EmptyTemplate();
  }

  lemma EmptyTemplate()
    ensures Emitted([], 0x11, ResTemplate) == [0x11, 0x05, 0x0A, 0x02, 0x79, 0x00]
  {
    var data: seq<byte> := [] + [0x79, 0x00];
    assert data == [0x79, 0x00];
    assert Le(2, 1) == [2] + Le(0, 0);
    var content := EncodeInt(2) + data;
    assert content == [0x0A, 0x02, 0x79, 0x00];
    assert Emitted([], 0x11, ResTemplate) == [0x11] + PkgLength.CEncode(PkgLength.Wrap32(|content|), true) + content;
  }

  /** Below 2^28 the lengths are those of the Rust encoder. */
  lemma SamePackage(op: seq<byte>, content: seq<byte>)
    requires |content| < 0x1000_0000
    ensures CPkg(op, content) == Pkg(op, content)
  {
    hide PkgLength.CEncode, PkgLength.Encode;
    PkgLength.EncodersAgree(|content|, true);
  }

  // ----- the aml_* constructors -----

  /** A name given as dotted text. */
  method AppendText(table: ByteVec, text: seq<byte>)
    requires Names.CName(text).Some?
    modifies table
    ensures table.data == old(table.data) + Names.CName(text).value
  {
    hide Names.CName;
    var ok := Names.BuildAppendNamestringv(table, text);
    assert ok;
  }

  /** The name of a path. */
  method AppendName(table: ByteVec, p: Path)
    requires Names.Legal(p)
    modifies table
    ensures table.data == old(table.data) + Names.Encode(p)
  {
    hide Names.CName, Names.Encode, Names.Text;
    PathText(p);
    AppendText(table, Names.Text(p));
  }

  lemma PathText(p: Path)
    requires Names.Legal(p)
    ensures Names.CName(Names.Text(p)) == Some(Names.Encode(p))
  {
    hide Names.CName, Names.Encode, Names.Text;
    Names.CNameEncodes(p);
    Names.PadFull(p.segs);
  }

  /** aml_return, aml_derefof, aml_sizeof, aml_object_type */
  method AmlUnary(op: byte, arg: AmlNode) returns (v: AmlNode)
    ensures fresh(v) && fresh(v.buf)
    ensures v.Emit() == [op] + arg.Emit()
  {
    hide CPkg, CBuffer;
    v := new AmlNode(op, Opcode);
    AmlAppend(v, arg);
  }

  /** aml_store, aml_notify, aml_equal, aml_lless, aml_lgreater */
  method AmlPair(op: byte, arg1: AmlNode, arg2: AmlNode) returns (v: AmlNode)
    ensures fresh(v) && fresh(v.buf)
    ensures v.Emit() == [op] + arg1.Emit() + arg2.Emit()
  {
    hide CPkg, CBuffer;
    v := new AmlNode(op, Opcode);
    AmlAppend(v, arg1);
    AmlAppend(v, arg2);
    assert v.Emit() == [op] + arg1.Emit() + arg2.Emit();
  }

  /** aml_lgreater_equal: LNotOp LLessOp. */
  method AmlLGreaterEqual(arg1: AmlNode, arg2: AmlNode) returns (v: AmlNode)
    ensures fresh(v) && fresh(v.buf)
    ensures v.Emit() == [0x92, 0x95] + arg1.Emit() + arg2.Emit()
  {
    hide CPkg, CBuffer;
    v := new AmlNode(0x92, Opcode);
    v.buf.Push(0x95);
    AmlAppend(v, arg1);
    AmlAppend(v, arg2);
    assert v.Emit() == [0x92, 0x95] + arg1.Emit() + arg2.Emit();
  }

  /** aml_to_buffer, and aml_to_integer without a target. */
  method AmlConvert(op: byte, src: AmlNode, dst: AmlNode?) returns (v: AmlNode)
    ensures fresh(v) && fresh(v.buf)
    ensures v.Emit() == [op] + src.Emit() + if dst == null then [0x00] else dst.Emit()
  {
    hide CPkg, CBuffer;
    v := new AmlNode(op, Opcode);
    AmlAppend(v, src);
    if dst != null {
      AmlAppend(v, dst);
    } else {
      v.buf.Push(0x00);
    }
    assert v.Emit() == [op] + src.Emit() + if dst == null then [0x00] else dst.Emit();
  }

  /** build_opcode_2arg_dst: a missing target is a null name. */
  method BuildOpcode2ArgDst(op: byte, arg1: AmlNode, arg2: AmlNode, dst: AmlNode?) returns (v: AmlNode)
    ensures fresh(v) && fresh(v.buf)
    ensures v.Emit() == [op] + arg1.Emit() + arg2.Emit() + if dst == null then [0x00] else dst.Emit()
  {
    hide CPkg, CBuffer;
    v := new AmlNode(op, Opcode);
    AmlAppend(v, arg1);
    AmlAppend(v, arg2);
    if dst != null {
      AmlAppend(v, dst);
    } else {
      v.buf.Push(0x00);
    }
    assert v.Emit() == [op] + arg1.Emit() + arg2.Emit() + if dst == null then [0x00] else dst.Emit();
  }

  /** create_field_common: the field is named by text, not by a node. */
  method CreateFieldCommon(op: byte, srcbuf: AmlNode, index: AmlNode, name: seq<byte>) returns (v: AmlNode)
    requires Names.CName(name).Some?
    ensures fresh(v) && fresh(v.buf)
    ensures v.Emit() == [op] + srcbuf.Emit() + index.Emit() + Names.CName(name).value
  {
    hide CPkg, CBuffer, Names.CName;
    v := new AmlNode(op, Opcode);
    AmlAppend(v, srcbuf);
    AmlAppend(v, index);
    AppendText(v.buf, name);
    assert v.Emit() == [op] + srcbuf.Emit() + index.Emit() + Names.CName(name).value;
  }

  /** aml_create_field */
  method AmlCreateField(srcbuf: AmlNode, bitIndex: AmlNode, numBits: AmlNode, name: seq<byte>) returns (v: AmlNode)
    requires Names.CName(name).Some?
    ensures fresh(v) && fresh(v.buf)
    ensures v.Emit() == [0x5B, 0x13] + srcbuf.Emit() + bitIndex.Emit() + numBits.Emit() + Names.CName(name).value
  {
    hide CPkg, CBuffer, Names.CName;
    v := new AmlNode(0, NoOpcode);
    v.buf.Push(0x5B);
    v.buf.Push(0x13);
    AmlAppend(v, srcbuf);
    AmlAppend(v, bitIndex);
    AmlAppend(v, numBits);
    AppendText(v.buf, name);
    assert v.Emit() == [0x5B, 0x13] + srcbuf.Emit() + bitIndex.Emit() + numBits.Emit() + Names.CName(name).value;
  }

  /** aml_name_decl */
  method AmlNameDecl(name: seq<byte>, val: AmlNode) returns (v: AmlNode)
    requires Names.CName(name).Some?
    ensures fresh(v) && fresh(v.buf)
    ensures v.Emit() == [0x08] + Names.CName(name).value + val.Emit()
  {
    hide CPkg, CBuffer, Names.CName;
    v := new AmlNode(0x08, Opcode);
    AppendText(v.buf, name);
    AmlAppend(v, val);
    assert v.Emit() == [0x08] + Names.CName(name).value + val.Emit();
  }

  /** aml_operation_region */
  method AmlOperationRegion(name: seq<byte>, space: RegionSpace, offset: AmlNode, len: u32) returns (v: AmlNode)
    requires Names.CName(name).Some?
    ensures fresh(v) && fresh(v.buf)
    ensures v.Emit() == [0x5B, 0x80] + Names.CName(name).value + [space] + offset.Emit() + EncodeInt(len)
  {
    hide CPkg, CBuffer, Names.CName, EncodeInt;
    v := new AmlNode(0, NoOpcode);
    v.buf.Push(0x5B);
    v.buf.Push(0x80);
    AppendText(v.buf, name);
    v.buf.Push(space);
    AmlAppend(v, offset);
    BuildAppendInt(v.buf, len);
    assert v.Emit() == [0x5B, 0x80] + Names.CName(name).value + [space] + offset.Emit() + EncodeInt(len);
  }

  /** aml_mutex, aml_acquire and aml_release: a prefix, an opcode, a name and a tail. */
  method AmlSync(op: byte, name: Path, tail: seq<byte>) returns (v: AmlNode)
    requires Names.Legal(name)
    ensures fresh(v) && fresh(v.buf)
    ensures v.Emit() == [0x5B, op] + Names.Encode(name) + tail
  {
    hide CPkg, CBuffer, Names.Encode;
    v := new AmlNode(0, NoOpcode);
    v.buf.Push(0x5B);
    v.buf.Push(op);
    AppendName(v.buf, name);
    v.buf.Extend(tail);
    assert v.Emit() == [0x5B, op] + Names.Encode(name) + tail;
  }

  /** A field entry of the C side: the name padded, the width as 32 bits. */
  function CEntry(e: FieldEntry): seq<byte> {
    (if e.Named? then Names.Padded(e.name) else [0x00]) + PkgLength.CEncode(PkgLength.Wrap32(e.width), false)
  }

  function CEntries(es: seq<FieldEntry>): seq<byte> {
    if es == [] then [] else CEntry(es[0]) + CEntries(es[1..])
  }

  /** What the assertion on a field's name asks. */
  predicate NamedShort(es: seq<FieldEntry>) { forall i :: 0 <= i < |es| && es[i].Named? ==> |es[i].name| <= 4 }

  lemma CEntryIs(e: FieldEntry)
    requires WellFormedEntry(e)
    ensures CEntry(e) == EncodeEntry(e) && (e.Named? ==> |e.name| <= 4)
  {
    hide PkgLength.CEncode, PkgLength.Encode;
    PkgLength.EncodersAgree(e.width, false);
    assert PkgLength.Wrap32(e.width) == e.width;
    if e.Named? {
      assert Names.Padded(e.name) == e.name;
    }
  }

  /** Entries that are well-formed are those of the Rust side. */
  lemma {:induction false} CEntriesAre(es: seq<FieldEntry>)
    requires forall i :: 0 <= i < |es| ==> WellFormedEntry(es[i])
    ensures CEntries(es) == EncodeEntries(es) && NamedShort(es)
  {
    hide CEntry, EncodeEntry, WellFormedEntry;
    if es != [] {
      CEntryIs(es[0]);
      CEntriesAre(es[1..]);
      assert forall i :: 0 < i < |es| ==> es[i] == es[1..][i - 1];
    }
  }

  /** aml_field, with the entries aml_named_field and aml_reserved_field append to it. */
  method AmlField(name: seq<byte>, access: AccessType, lock: bool, update: UpdateRule, entries: seq<FieldEntry>)
    returns (v: AmlNode)
    requires Names.CName(name).Some? && NamedShort(entries)
    ensures fresh(v) && fresh(v.buf) && v.flags == ExtPackage && v.op == 0x81
    ensures v.buf.data == Names.CName(name).value + [FieldFlags(access, lock, update)] + CEntries(entries)
  {
    hide CPkg, CBuffer, Names.CName, CEntry;
    v := new AmlNode(0x81, ExtPackage);
    AppendText(v.buf, name);
    v.buf.Push(32 * update + access + 16 * Bit(lock));
    ghost var header := v.buf.data;
    assert header == Names.CName(name).value + [FieldFlags(access, lock, update)];
    for i := 0 to |entries|
      invariant v.buf.data + CEntries(entries[i..]) == header + CEntries(entries)
    {
      AppendFieldEntry(v.buf, entries[i]);
      assert entries[i..][0] == entries[i] && entries[i..][1..] == entries[i + 1..];
    }
    assert entries[|entries|..] == [];
  }

  method AppendFieldEntry(table: ByteVec, e: FieldEntry)
    requires e.Named? ==> |e.name| <= 4
    modifies table
    ensures table.data == old(table.data) + CEntry(e)
  {
    hide PkgLength.CEncode;
    match e {
      case Named(name, _) =>
        var ok := Names.BuildAppendNameseg(table, name);
      case Reserved(_) =>
        table.Push(0x00);
    }
    var tmp := new ByteVec();
    PkgLength.BuildPrependPackageLength(tmp, PkgLength.Wrap32(e.width), false);
    assert tmp.data == PkgLength.CEncode(PkgLength.Wrap32(e.width), false);
    table.Extend(tmp.data);
    assert table.data == old(table.data) + CEntry(e);
  }

  // ----- building a term -----

  predicate IsName(t: Term) { t.MethodCall? && t.args == [] && Names.Legal(t.name) }

  /** The terms both sides can build.  The C side has no Ones, Multiply, Nand, Nor, Xor,
      ConcatRes, Mod, ToString or Mid; gives some operators no target; names fields and mutexes by text;
      and calls methods with at most six arguments. */
  predicate InBoth(t: Term)
    decreases t
  {
    match t
    case Int(_) => true
    case Ones => false
    case Str(chars) => 0 !in chars
    case Arg(_) => true
    case Local(_) => true
    case MethodCall(name, args) => Names.Legal(name) && |args| <= 6 && AllInBoth(args)
    case Compare(_, _, left, right) => InBoth(left) && InBoth(right)
    case Unary(_, a) => InBoth(a)
    case Binary(op, target, a, b) =>
      InBoth(a) && InBoth(b) &&
      (match op
       case Add => InBoth(target) case Concat => InBoth(target) case Subtract => InBoth(target)
       case ShiftRight => InBoth(target) case And => InBoth(target) case Or => InBoth(target)
       case ShiftLeft => target == Int(0) case Index => target == Int(0)
       case CreateDWordField => IsName(target) case CreateQWordField => IsName(target)
       case _ => false)
    case Convert(op, target, a) => InBoth(a) && if op == ToBuffer then InBoth(target) else target == Int(0)
    case Store(destination, source) => InBoth(destination) && InBoth(source)
    case Notify(what, code) => InBoth(what) && InBoth(code)
    case CreateField(name, source, index, num) => IsName(name) && InBoth(source) && InBoth(index) && InBoth(num)
    case Mid(_, _, _, _) => false
    case NameDecl(path, inner) => Names.Legal(path) && InBoth(inner)
    case OpRegion(path, _, offset, length) =>
      Names.Legal(path) && InBoth(offset) && length.Int? && length.value <= U32_MAX
    case Mutex(path, level) => Names.Legal(path) && level < 16
    case Acquire(path, _) => Names.Legal(path)
    case Release(path) => Names.Legal(path)
    case Package(children) => |children| <= 255 && Countable(t) && AllInBoth(children)
    case VarPackage(data) => data.Int? && data.value <= U32_MAX
    case Buffer(size, bytes) => size.Int? && size.value == |bytes| && Countable(t)
    case Scope(path, children) => Names.Legal(path) && Countable(t) && AllInBoth(children)
    case Device(path, children) => Names.Legal(path) && Countable(t) && AllInBoth(children)
    case Method(path, argCount, _, children) =>
      Names.Legal(path) && argCount < 8 && Countable(t) && AllInBoth(children)
    case Field(path, _, _, _, entries) =>
      Names.Legal(path) && Countable(t) && forall i :: 0 <= i < |entries| ==> WellFormedEntry(entries[i])
    case If(condition, children) => Countable(t) && InBoth(condition) && AllInBoth(children)
    case Else(children) => Countable(t) && AllInBoth(children)
    case While(condition, children) => Countable(t) && InBoth(condition) && AllInBoth(children)
  }

  predicate AllInBoth(ts: seq<Term>)
    decreases ts
  {
    forall i :: 0 <= i < |ts| ==> InBoth(ts[i])
  }

  /** Builds each term and appends it to the parent. */
  method AppendTerms(parent: AmlNode, ts: seq<Term>)
    requires AllInBoth(ts)
    modifies parent.buf
    ensures parent.buf.data == old(parent.buf.data) + EncodeAll(ts)
    decreases ts
  {
    hide Encode, CPkg, CBuffer;
    for i := 0 to |ts|
      invariant parent.buf.data + EncodeAll(ts[i..]) == old(parent.buf.data) + EncodeAll(ts)
    {
      var child := BuildTerm(ts[i]);
      AmlAppend(parent, child);
      assert ts[i..][0] == ts[i] && ts[i..][1..] == ts[i + 1..];
    }
  }

  /** aml_lnot */
  method AmlLnot(arg: AmlNode) returns (v: AmlNode)
    ensures fresh(v) && fresh(v.buf)
    ensures v.Emit() == [0x92] + arg.Emit()
  {
    hide CPkg, CBuffer;
    v := new AmlNode(0x92, Opcode);
    AmlAppend(v, arg);
  }

  function CompareBytes(cmp: CompareOp, negated: bool): seq<byte> {
    if negated then [0x92, CompareByte(cmp)] else [CompareByte(cmp)]
  }

  /** NotEqual and LessEqual are aml_lnot over aml_equal and aml_lgreater; GreaterEqual has a constructor
      of its own. */
  method AmlCompare(cmp: CompareOp, negated: bool, left: AmlNode, right: AmlNode) returns (v: AmlNode)
    ensures fresh(v) && fresh(v.buf)
    ensures v.Emit() == CompareBytes(cmp, negated) + left.Emit() + right.Emit()
  {
    hide Emitted, CompareByte;
    if negated && cmp == LessThan {
      v := AmlLGreaterEqual(left, right);
      assert CompareByte(LessThan) == 0x95 by { CompareCodes(); }
    } else {
      var op: byte := match cmp case Equal => 0x93 case LessThan => 0x95 case GreaterThan => 0x94;
      CompareCodes();
      var pair := AmlPair(op, left, right);
      if negated {
        v := AmlLnot(pair);
        assert [0x92] + ([op] + left.Emit() + right.Emit()) == [0x92, op] + left.Emit() + right.Emit();
      } else {
        v := pair;
      }
    }
  }

  lemma CompareCodes()
    ensures CompareByte(Equal) == 0x93 && CompareByte(LessThan) == 0x95 && CompareByte(GreaterThan) == 0x94
  {
  }

  method BuildCompare(t: Term) returns (v: AmlNode)
    requires t.Compare? && InBoth(t)
    ensures fresh(v) && fresh(v.buf) && v.Emit() == Encode(t)
    decreases t, 0
  {
    hide CPkg, CBuffer;
    var left := BuildTerm(t.left);
    var right := BuildTerm(t.right);
    v := AmlCompare(t.cmp, t.negated, left, right);
  }

  method BuildUnary(t: Term) returns (v: AmlNode)
    requires t.Unary? && InBoth(t)
    ensures fresh(v) && fresh(v.buf) && v.Emit() == Encode(t)
    decreases t, 0
  {
    hide CPkg, CBuffer;
    var a := BuildTerm(t.a);
    v := AmlUnary(
      match t.unary case ObjectType => 0x8E case SizeOf => 0x87 case Return => 0xA4 case DeRefOf => 0x83, a);
  }

  /** aml_and, aml_or, aml_add, aml_subtract, aml_concatenate and aml_shiftright take a target;
      aml_shiftleft and aml_index do not; the two field operators take a name. */
  method BuildBinary(t: Term) returns (v: AmlNode)
    requires t.Binary? && InBoth(t)
    ensures fresh(v) && fresh(v.buf) && v.Emit() == Encode(t)
    decreases t, 0
  {
    hide CPkg, CBuffer, Names.CName, Names.Text, Names.Encode;
    var a := BuildTerm(t.a);
    var b := BuildTerm(t.b);
    if t.binary.ShiftLeft? || t.binary.Index? {
      v := BuildOpcode2ArgDst(if t.binary.Index? then 0x88 else 0x79, a, b, null);
    } else if t.binary.CreateDWordField? || t.binary.CreateQWordField? {
      PathText(t.target.name);
      v := CreateFieldCommon(if t.binary.CreateDWordField? then 0x8A else 0x8F, a, b, Names.Text(t.target.name));
      NameEncodes(t.target);
    } else {
      var dst := BuildTerm(t.target);
      var op :=
        if t.binary.And? then 0x7B else if t.binary.Or? then 0x7D else if t.binary.Add? then 0x72
        else if t.binary.Subtract? then 0x74 else if t.binary.Concat? then 0x73 else 0x7A;
      v := BuildOpcode2ArgDst(op, a, b, dst);
    }
  }

  lemma NameEncodes(t: Term)
    requires IsName(t)
    ensures Encode(t) == Names.Encode(t.name)
  {
    assert EncodeAll([]) == [];
    assert Names.Encode(t.name) + [] == Names.Encode(t.name);
  }

  method BuildConvert(t: Term) returns (v: AmlNode)
    requires t.Convert? && InBoth(t)
    ensures fresh(v) && fresh(v.buf) && v.Emit() == Encode(t)
    decreases t, 0
  {
    hide CPkg, CBuffer;
    var a := BuildTerm(t.a);
    match t.convert {
      case ToInteger => v := AmlConvert(0x99, a, null);
      case ToBuffer =>
        var dst := BuildTerm(t.target);
        v := AmlConvert(0x96, a, dst);
    }
  }

  /** aml_store and aml_notify */
  method BuildPair(t: Term) returns (v: AmlNode)
    requires (t.Store? || t.Notify?) && InBoth(t)
    ensures fresh(v) && fresh(v.buf) && v.Emit() == Encode(t)
    decreases t, 0
  {
    hide CPkg, CBuffer;
    var first := BuildTerm(if t.Store? then t.source else t.notified);
    var second := BuildTerm(if t.Store? then t.destination else t.code);
    v := AmlPair(if t.Store? then 0x70 else 0x86, first, second);
  }

  method BuildCreateField(t: Term) returns (v: AmlNode)
    requires t.CreateField? && InBoth(t)
    ensures fresh(v) && fresh(v.buf) && v.Emit() == Encode(t)
    decreases t, 0
  {
    hide CPkg, CBuffer, Names.CName, Names.Text, Names.Encode;
    var source := BuildTerm(t.source);
    var index := BuildTerm(t.bitIndex);
    var num := BuildTerm(t.bitNum);
    PathText(t.nameString.name);
    v := AmlCreateField(source, index, num, Names.Text(t.nameString.name));
    NameEncodes(t.nameString);
  }

  method BuildNameDecl(t: Term) returns (v: AmlNode)
    requires t.NameDecl? && InBoth(t)
    ensures fresh(v) && fresh(v.buf) && v.Emit() == Encode(t)
    decreases t, 0
  {
    hide CPkg, CBuffer, Names.CName, Names.Text, Names.Encode;
    var inner := BuildTerm(t.inner);
    PathText(t.path);
    v := AmlNameDecl(Names.Text(t.path), inner);
  }

  method BuildOpRegion(t: Term) returns (v: AmlNode)
    requires t.OpRegion? && InBoth(t)
    ensures fresh(v) && fresh(v.buf) && v.Emit() == Encode(t)
    decreases t, 0
  {
    hide CPkg, CBuffer, Names.CName, Names.Text, Names.Encode, EncodeInt;
    var offset := BuildTerm(t.offset);
    PathText(t.path);
    v := AmlOperationRegion(Names.Text(t.path), t.space, offset, t.length.value);
  }

  /** aml_name and aml_call0 to aml_call6 */
  method BuildCall(t: Term) returns (v: AmlNode)
    requires t.MethodCall? && InBoth(t)
    ensures fresh(v) && fresh(v.buf) && v.Emit() == Encode(t)
    decreases t, 0
  {
    hide CPkg, CBuffer, Names.CName, Names.Text, Names.Encode;
    v := new AmlNode(0, NoOpcode);
    AppendName(v.buf, t.name);
    AppendTerms(v, t.args);
  }

  /** Leaves: aml_int, aml_string, aml_arg, aml_local, aml_mutex, aml_acquire, aml_release. */
  method BuildLeaf(t: Term) returns (v: AmlNode)
    requires t.Int? || t.Str? || t.Arg? || t.Local? || t.Mutex? || t.Acquire? || t.Release?
    requires InBoth(t)
    ensures fresh(v) && fresh(v.buf) && v.Emit() == Encode(t)
  {
    hide CPkg, CBuffer, Names.CName, Names.Text, Names.Encode, EncodeInt, Le;
    match t {
      case Int(value) =>
        v := new AmlNode(0, NoOpcode);
        BuildAppendInt(v.buf, value);
      case Str(chars) =>
        v := new AmlNode(0x0D, Opcode);
        v.buf.Extend(chars + [0x00]);
      case Arg(n) => v := new AmlNode(0x68 + n, Opcode);
      case Local(n) => v := new AmlNode(0x60 + n, Opcode);
      case Mutex(path, level) => v := AmlSync(0x01, path, [level]);
      case Acquire(path, timeout) => v := AmlSync(0x23, path, Le(timeout, 2));
      case Release(path) => v := AmlSync(0x27, path, []);
    }
    assert v.Emit() == Encode(t);
  }

  /** A node for a packaged term, holding its content. */
  method BuildBundle(t: Term) returns (v: AmlNode)
    requires Packaged(t) && !t.Buffer? && InBoth(t)
    ensures fresh(v) && fresh(v.buf) && v.buf.data == Content(t)
    ensures v.flags == (if t.Device? || t.Field? then ExtPackage else PackageBlock) && v.op == PackageByte(t)
    decreases t, 0
  {
    hide CPkg, CBuffer, Names.CName, Names.Text, Names.Encode, EncodeInt, EncodeAll, Encode;
    hide EncodeEntries, FieldFlags, CEntries;
    if t.Field? {
      PathText(t.path);
      CEntriesAre(t.entries);
      v := AmlField(Names.Text(t.path), t.access, t.lock, t.update, t.entries);
      return;
    }
    v := new AmlNode(PackageByte(t), if t.Device? then ExtPackage else PackageBlock);
    BundleHeader(t, v);
    if !t.VarPackage? {
      AppendTerms(v, t.children);
    }
  }

  /** What a bundle's constructor puts in before anything is appended to the bundle. */
  function Header(t: Term): seq<byte>
    requires Packaged(t) && !t.Buffer? && !t.Field?
  {
    match t
    case Package(children) => [|children| % 256]
    case VarPackage(data) => Encode(data)
    case Scope(path, _) => Names.Encode(path)
    case Device(path, _) => Names.Encode(path)
    case Method(path, argCount, serialized, _) => Names.Encode(path) + [MethodFlags(argCount, serialized)]
    case If(condition, _) => Encode(condition)
    case While(condition, _) => Encode(condition)
    case Else(_) => []
  }

  /** aml_package, aml_varpackage, aml_scope, aml_device, aml_method, aml_if, aml_while, aml_else */
  method BundleHeader(t: Term, v: AmlNode)
    requires Packaged(t) && !t.Buffer? && !t.Field? && InBoth(t)
    requires v.buf.data == []
    modifies v.buf
    ensures v.buf.data == Header(t)
    ensures Content(t) == Header(t) + if t.VarPackage? then [] else EncodeAll(t.children)
    decreases t, 0, 0
  {
    hide CPkg, CBuffer, Names.CName, Names.Text, Names.Encode, EncodeInt, EncodeAll;
    match t {
      case Package(children) => v.buf.Push(|children|);
      case VarPackage(data) => BuildAppendInt(v.buf, data.value);
      case Scope(path, _) => AppendName(v.buf, path);
      case Device(path, _) => AppendName(v.buf, path);
      case Method(path, argCount, serialized, _) =>
        AppendName(v.buf, path);
        v.buf.Push(argCount + 8 * Bit(serialized));
      case Else(_) =>
      case If(condition, _) =>
        var node := BuildTerm(condition);
        AmlAppend(v, node);
      case While(condition, _) =>
        var node := BuildTerm(condition);
        AmlAppend(v, node);
    }
    assert v.buf.data == Header(t);
  }

  method BuildPackaged(t: Term) returns (v: AmlNode)
    requires Packaged(t) && InBoth(t)
    ensures fresh(v) && fresh(v.buf) && v.Emit() == Encode(t)
    decreases t, 1
  {
    hide Content, CPkg, Pkg, EncodeAll, EncodeInt, InBoth;
    BothCountable(t);
    if t.Buffer? {
      v := new AmlNode(0x11, BufferBlock);
      v.buf.Extend(t.bytes);
      assert v.buf.data == t.bytes;
      BufferContent(t);
      SamePackage([0x11], Content(t));
    } else {
      v := BuildBundle(t);
      SamePackage(if v.flags == ExtPackage then [0x5B, v.op] else [v.op], Content(t));
    }
  }

  lemma BothCountable(t: Term)
    requires Packaged(t) && InBoth(t)
    ensures |Content(t)| + 4 < 0x1000_0000
  {
    if t.VarPackage? {
      assert Content(t) == EncodeInt(t.data.value);
    } else {
      BothCounted(t);
    }
  }

  lemma BothCounted(t: Term)
    requires Packaged(t) && !t.VarPackage? && InBoth(t)
    ensures Countable(t)
  {
    hide Content, Countable, Names.Legal, WellFormedEntry;
  }

  lemma BufferContent(t: Term)
    requires t.Buffer? && InBoth(t)
    ensures Content(t) == EncodeInt(|t.bytes| % 0x1_0000_0000) + t.bytes
  {
    assert |Content(t)| + 4 < 0x1000_0000;
  }

  /** The mutable builder refines the recursive encoder: built with the constructors and
      aml_append, a term of both languages emits the bytes of its recursive encoding. */
  method BuildTerm(t: Term) returns (v: AmlNode)
    requires InBoth(t)
    ensures fresh(v) && fresh(v.buf)
    ensures v.Emit() == Encode(t)
    decreases t
  {
    hide Encode, CPkg, CBuffer;
    if Packaged(t) {
      v := BuildPackaged(t);
    } else if t.MethodCall? {
      v := BuildCall(t);
    } else if t.Compare? {
      v := BuildCompare(t);
    } else if t.Unary? {
      v := BuildUnary(t);
    } else if t.Binary? {
      v := BuildBinary(t);
    } else if t.Convert? {
      v := BuildConvert(t);
    } else if t.Store? || t.Notify? {
      v := BuildPair(t);
    } else if t.CreateField? {
      v := BuildCreateField(t);
    } else if t.NameDecl? {
      v := BuildNameDecl(t);
    } else if t.OpRegion? {
      v := BuildOpRegion(t);
    } else {
      v := BuildLeaf(t);
    }
  }
}
