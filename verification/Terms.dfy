/** The AML term language of src/acpi/aml.rs: the terms and the bytes they stand for
    (section 20.2 of ACPI 5.0). */
module Terms {
  import opened Bytes
  import Names
  import PkgLength

  /** A path with at least one segment, as Path::new makes them. */
  type Path = p: Names.Path | p.segs != [] witness Names.Path(false, 0, [[]])
  type ArgIndex = x: int | 0 <= x <= 6
  type LocalIndex = x: int | 0 <= x <= 7
  /** Discriminants of FieldAccessType, FieldUpdateRule and OpRegionSpace. */
  type AccessType = x: int | 0 <= x <= 5
  type UpdateRule = x: int | 0 <= x <= 2
  type RegionSpace = x: int | 0 <= x <= 9

  datatype CompareOp = Equal | LessThan | GreaterThan
  datatype UnaryOp = ObjectType | SizeOf | Return | DeRefOf
  datatype BinaryOp =
    | Add | Concat | Subtract | Multiply | ShiftLeft | ShiftRight | And | Nand | Or | Nor | Xor
    | ConcatRes | Mod | Index | ToString | CreateDWordField | CreateQWordField
  datatype ConvertOp = ToBuffer | ToInteger

  datatype FieldEntry = Named(name: seq<byte>, width: nat) | Reserved(width: nat)

  /** A term.  The four integer types, ZERO, ONE and EISAName all become `Int`; a bare Path is a
      MethodCall without arguments; BufferTerm, BufferData and ResourceTemplate are `Buffer`;
      NotEqual, GreaterEqual and LessEqual are negated comparisons. */
  datatype Term =
    | Int(value: u64)
    | Ones
    | Str(chars: seq<byte>)
    | Arg(arg: ArgIndex)
    | Local(local: LocalIndex)
    | MethodCall(name: Path, args: seq<Term>)
    | Compare(cmp: CompareOp, negated: bool, left: Term, right: Term)
    | Unary(unary: UnaryOp, a: Term)
    | Binary(binary: BinaryOp, target: Term, a: Term, b: Term)
    | Convert(convert: ConvertOp, target: Term, a: Term)
    | Store(destination: Term, source: Term)
    | Notify(notified: Term, code: Term)
    | CreateField(nameString: Term, source: Term, bitIndex: Term, bitNum: Term)
    | Mid(source: Term, index: Term, length: Term, result: Term)
    | NameDecl(path: Path, inner: Term)
    | OpRegion(path: Path, space: RegionSpace, offset: Term, length: Term)
    | Mutex(path: Path, syncLevel: byte)
    | Acquire(path: Path, timeout: u16)
    | Release(path: Path)
    | Package(children: seq<Term>)
    | VarPackage(data: Term)
    | Buffer(size: Term, bytes: seq<byte>)
    | Scope(path: Path, children: seq<Term>)
    | Device(path: Path, children: seq<Term>)
    | Method(path: Path, argCount: byte, serialized: bool, children: seq<Term>)
    | Field(path: Path, access: AccessType, lock: bool, update: UpdateRule, entries: seq<FieldEntry>)
    | If(condition: Term, children: seq<Term>)
    | Else(children: seq<Term>)
    | While(condition: Term, children: seq<Term>)

  function BufferData(data: seq<byte>): Term
    requires |data| <= U64_MAX
  {
    Buffer(Int(|data|), data)
  }

  // ----- opcodes -----

  function CompareByte(op: CompareOp): byte {
    match op case Equal => 0x93 case LessThan => 0x95 case GreaterThan => 0x94
  }

  function UnaryByte(op: UnaryOp): byte {
    match op case ObjectType => 0x8E case SizeOf => 0x87 case Return => 0xA4 case DeRefOf => 0x83
  }

  function BinaryByte(op: BinaryOp): byte {
    match op
    case Add => 0x72 case Concat => 0x73 case Subtract => 0x74 case Multiply => 0x77
    case ShiftLeft => 0x79 case ShiftRight => 0x7A case And => 0x7B case Nand => 0x7C
    case Or => 0x7D case Nor => 0x7E case Xor => 0x7F case ConcatRes => 0x84 case Mod => 0x85
    case Index => 0x88 case ToString => 0x9C
    case CreateDWordField => 0x8A case CreateQWordField => 0x8F
  }

  function ConvertByte(op: ConvertOp): byte {
    match op case ToBuffer => 0x96 case ToInteger => 0x99
  }

  // ----- encoding -----

  function EncodeInt(v: u64): seq<byte> {
    if v == 0 then [0x00]
    else if v == 1 then [0x01]
    else if v <= 0xFF then [0x0A] + Le(v, 1)
    else if v <= 0xFFFF then [0x0B] + Le(v, 2)
    else if v <= 0xFFFF_FFFF then [0x0C] + Le(v, 4)
    else [0x0E] + Le(v, 8)
  }

  /** An opcode, the inclusive length of its content, the content. */
  function Pkg(op: seq<byte>, content: seq<byte>): seq<byte> {
    op + PkgLength.Encode(|content|, true) + content
  }

  function Bit(b: bool): nat { if b then 1 else 0 }

  function EncodeEntry(e: FieldEntry): seq<byte> {
    match e
    case Named(name, width) => name + PkgLength.Encode(width, false)
    case Reserved(width) => [0x00] + PkgLength.Encode(width, false)
  }

  function EncodeEntries(es: seq<FieldEntry>): seq<byte> {
    if es == [] then [] else EncodeEntry(es[0]) + EncodeEntries(es[1..])
  }

  function FieldFlags(access: AccessType, lock: bool, update: UpdateRule): byte {
    access + 16 * Bit(lock) + 32 * update
  }

  /** `args & 7 | serialized << 3` */
  function MethodFlags(argCount: byte, serialized: bool): byte {
    argCount % 8 + 8 * Bit(serialized)
  }

  function Encode(t: Term): seq<byte>
    decreases t
  {
    match t
    case Int(v) => EncodeInt(v)
    case Ones => [0xFF]
    case Str(chars) => [0x0D] + chars + [0x00]
    case Arg(n) => [0x68 + n]
    case Local(n) => [0x60 + n]
    case MethodCall(name, args) => Names.Encode(name) + EncodeAll(args)
    case Compare(op, negated, left, right) =>
      (if negated then [0x92, CompareByte(op)] else [CompareByte(op)]) + Encode(left) + Encode(right)
    case Unary(op, a) => [UnaryByte(op)] + Encode(a)
    case Binary(op, target, a, b) => [BinaryByte(op)] + Encode(a) + Encode(b) + Encode(target)
    case Convert(op, target, a) => [ConvertByte(op)] + Encode(a) + Encode(target)
    case Store(destination, source) => [0x70] + Encode(source) + Encode(destination)
    case Notify(what, code) => [0x86] + Encode(what) + Encode(code)
    case CreateField(name, source, index, num) =>
      [0x5B, 0x13] + Encode(source) + Encode(index) + Encode(num) + Encode(name)
    case Mid(source, index, length, result) =>
      [0x9E] + Encode(source) + Encode(index) + Encode(length) + Encode(result)
    case NameDecl(path, inner) => [0x08] + Names.Encode(path) + Encode(inner)
    case OpRegion(path, space, offset, length) =>
      [0x5B, 0x80] + Names.Encode(path) + [space] + Encode(offset) + Encode(length)
    case Mutex(path, level) => [0x5B, 0x01] + Names.Encode(path) + [level]
    case Acquire(path, timeout) => [0x5B, 0x23] + Names.Encode(path) + Le(timeout, 2)
    case Release(path) => [0x5B, 0x27] + Names.Encode(path)
    case Package(_) => Pkg([0x12], Content(t))
    case VarPackage(_) => Pkg([0x13], Content(t))
    case Buffer(_, _) => Pkg([0x11], Content(t))
    case Scope(_, _) => Pkg([0x10], Content(t))
    case Device(_, _) => Pkg([0x5B, 0x82], Content(t))
    case Method(_, _, _, _) => Pkg([0x14], Content(t))
    case Field(_, _, _, _, _) => Pkg([0x5B, 0x81], Content(t))
    case If(_, _) => Pkg([0xA0], Content(t))
    case Else(_) => Pkg([0xA1], Content(t))
    case While(_, _) => Pkg([0xA2], Content(t))
  }

  /** Terms with an explicit length. */
  predicate Packaged(t: Term) {
    t.Package? || t.VarPackage? || t.Buffer? || t.Scope? || t.Device? || t.Method? || t.Field?
    || t.If? || t.Else? || t.While?
  }

  /** The opcode of a packaged term; those of Device and Field come behind ExtOpPrefix. */
  function PackageByte(t: Term): byte
    requires Packaged(t)
  {
    match t
    case Package(_) => 0x12 case VarPackage(_) => 0x13 case Buffer(_, _) => 0x11
    case Scope(_, _) => 0x10 case Device(_, _) => 0x82 case Method(_, _, _, _) => 0x14
    case Field(_, _, _, _, _) => 0x81 case If(_, _) => 0xA0 case Else(_) => 0xA1 case While(_, _) => 0xA2
  }

  function PackageOp(t: Term): seq<byte>
    requires Packaged(t)
  {
    if t.Device? || t.Field? then [0x5B, PackageByte(t)] else [PackageByte(t)]
  }

  /** What the length of a packaged term covers, apart from the length itself. */
  function Content(t: Term): seq<byte>
    requires Packaged(t)
    decreases t, 0
  {
    match t
    case Package(children) => [|children| % 256] + EncodeAll(children)
    case VarPackage(data) => Encode(data)
    case Buffer(size, bytes) => Encode(size) + bytes
    case Scope(path, children) => Names.Encode(path) + EncodeAll(children)
    case Device(path, children) => Names.Encode(path) + EncodeAll(children)
    case Method(path, argCount, serialized, children) =>
      Names.Encode(path) + [MethodFlags(argCount, serialized)] + EncodeAll(children)
    case Field(path, access, lock, update, entries) =>
      Names.Encode(path) + [FieldFlags(access, lock, update)] + EncodeEntries(entries)
    case If(condition, children) => Encode(condition) + EncodeAll(children)
    case Else(children) => EncodeAll(children)
    case While(condition, children) => Encode(condition) + EncodeAll(children)
  }

  function EncodeAll(ts: seq<Term>): seq<byte>
    decreases ts
  {
    if ts == [] then [] else Encode(ts[0]) + EncodeAll(ts[1..])
  }

  lemma {:induction false} EncodeAllAppend(xs: seq<Term>, ys: seq<Term>)
    ensures EncodeAll(xs + ys) == EncodeAll(xs) + EncodeAll(ys)
  {
    if xs == [] {
      assert xs + ys == ys;
    } else {
      assert (xs + ys)[1..] == xs[1..] + ys;
      EncodeAllAppend(xs[1..], ys);
    }
  }

  // ----- well-formed terms -----

  /** How many arguments a call to each method takes; names that are not methods take none. */
  type Arities = map<Path, nat>

  function ArityOf(arities: Arities, p: Path): nat {
    if p in arities then arities[p] else 0
  }

  predicate WellFormedEntry(e: FieldEntry) {
    e.width < 0x1000_0000 && (e.Named? ==> Names.NameSeg(e.name))
  }

  /** What a package may hold besides names. */
  predicate DataObject(t: Term) { t.Int? || t.Ones? || t.Str? || t.Buffer? || t.Package? || t.VarPackage? }

  /** A name in a package refers to what it names; it is never a call. */
  predicate NamedElement(t: Term)
    requires t.MethodCall?
  {
    t.args == [] && Names.Legal(t.name)
  }

  /** The terms the encoding is meant for: legal names, string characters other than NUL, at
      most 255 package elements, which are data or names, calls with the declared number of arguments, at most 7 method
      arguments, and package contents that a PkgLength can count. */
  predicate WellFormed(t: Term, arities: Arities)
    decreases t
  {
    match t
    case Int(_) => true
    case Ones => true
    case Str(chars) => 0 !in chars
    case Arg(_) => true
    case Local(_) => true
    case MethodCall(name, args) =>
      Names.Legal(name) && |args| == ArityOf(arities, name) && AllWellFormed(args, arities)
    case Compare(_, _, left, right) => WellFormed(left, arities) && WellFormed(right, arities)
    case Unary(_, a) => WellFormed(a, arities)
    case Binary(_, target, a, b) => WellFormed(target, arities) && WellFormed(a, arities) && WellFormed(b, arities)
    case Convert(_, target, a) => WellFormed(target, arities) && WellFormed(a, arities)
    case Store(destination, source) => WellFormed(destination, arities) && WellFormed(source, arities)
    case Notify(what, code) => WellFormed(what, arities) && WellFormed(code, arities)
    case CreateField(name, source, index, num) =>
      WellFormed(name, arities) && WellFormed(source, arities) && WellFormed(index, arities) && WellFormed(num, arities)
    case Mid(source, index, length, result) =>
      WellFormed(source, arities) && WellFormed(index, arities) && WellFormed(length, arities)
            && WellFormed(result, arities)
    case NameDecl(path, inner) => Names.Legal(path) && WellFormed(inner, arities)
    case OpRegion(path, _, offset, length) =>
      Names.Legal(path) && WellFormed(offset, arities) && WellFormed(length, arities)
    case Mutex(path, _) => Names.Legal(path)
    case Acquire(path, _) => Names.Legal(path)
    case Release(path) => Names.Legal(path)
    case Package(children) =>
      |children| <= 255 && Countable(t)
      && forall i :: 0 <= i < |children| ==>
           if children[i].MethodCall? then NamedElement(children[i])
           else DataObject(children[i]) && WellFormed(children[i], arities)
    case VarPackage(data) => Countable(t) && WellFormed(data, arities)
    case Buffer(size, _) => Countable(t) && WellFormed(size, arities)
    case Scope(path, children) => Names.Legal(path) && Countable(t) && AllWellFormed(children, arities)
    case Device(path, children) => Names.Legal(path) && Countable(t) && AllWellFormed(children, arities)
    case Method(path, argCount, _, children) =>
      Names.Legal(path) && argCount <= 7 && Countable(t) && AllWellFormed(children, arities)
    case Field(path, _, _, _, entries) =>
      Names.Legal(path) && Countable(t) && forall i :: 0 <= i < |entries| ==> WellFormedEntry(entries[i])
    case If(condition, children) => Countable(t) && WellFormed(condition, arities) && AllWellFormed(children, arities)
    case Else(children) => Countable(t) && AllWellFormed(children, arities)
    case While(condition, children) =>
      Countable(t) && WellFormed(condition, arities) && AllWellFormed(children, arities)
  }

  predicate AllWellFormed(ts: seq<Term>, arities: Arities)
    decreases ts
  {
    forall i :: 0 <= i < |ts| ==> WellFormed(ts[i], arities)
  }

  predicate Countable(t: Term)
    requires Packaged(t)
  {
    |Content(t)| + 4 < 0x1000_0000
  }
}
