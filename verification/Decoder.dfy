/** A decoder for the term language, following the grammar of section 20.2 of ACPI 5.0: it reads
    a term off the front of a byte string given how many arguments each method takes.  It accepts
    more than the encoder emits (wider integers and lengths than necessary). */
module Decoder {
  import opened Bytes
  import opened Terms
  import Names
  import PkgLength

  // ----- terms that are an opcode and a fixed number of operands -----

  datatype Shape =
    | CompareShape(cmp: CompareOp, negated: bool)
    | UnaryShape(unary: UnaryOp)
    | BinaryShape(binary: BinaryOp)
    | ConvertShape(convert: ConvertOp)
    | StoreShape | NotifyShape | CreateFieldShape | MidShape

  function Arity(shape: Shape): nat {
    match shape
    case CompareShape(_, _) => 2
    case UnaryShape(_) => 1
    case BinaryShape(_) => 3
    case ConvertShape(_) => 2
    case StoreShape => 2
    case NotifyShape => 2
    case CreateFieldShape => 4
    case MidShape => 4
  }

  /** The operands in the order the grammar lists them, put back where they belong. */
  function Build(shape: Shape, operands: seq<Term>): Term
    requires |operands| == Arity(shape)
  {
    match shape
    case CompareShape(op, negated) => Compare(op, negated, operands[0], operands[1])
    case UnaryShape(op) => Unary(op, operands[0])
    case BinaryShape(op) => Binary(op, operands[2], operands[0], operands[1])
    case ConvertShape(op) => Convert(op, operands[1], operands[0])
    case StoreShape => Store(operands[1], operands[0])
    case NotifyShape => Notify(operands[0], operands[1])
    case CreateFieldShape => CreateField(operands[3], operands[0], operands[1], operands[2])
    case MidShape => Mid(operands[0], operands[1], operands[2], operands[3])
  }

  function CompareOf(b: byte): Option<CompareOp> {
    match b case 0x93 => Some(Equal) case 0x94 => Some(GreaterThan) case 0x95 => Some(LessThan) case _ => None
  }

  /** The opcodes of one byte that take operands only. */
  function ShapeOf(b: byte): Option<Shape> {
    match b
    case 0x70 => Some(StoreShape) case 0x72 => Some(BinaryShape(Add))
    case 0x73 => Some(BinaryShape(Concat)) case 0x74 => Some(BinaryShape(Subtract))
    case 0x77 => Some(BinaryShape(Multiply)) case 0x79 => Some(BinaryShape(ShiftLeft))
    case 0x7A => Some(BinaryShape(ShiftRight)) case 0x7B => Some(BinaryShape(And))
    case 0x7C => Some(BinaryShape(Nand)) case 0x7D => Some(BinaryShape(Or))
    case 0x7E => Some(BinaryShape(Nor)) case 0x7F => Some(BinaryShape(Xor))
    case 0x83 => Some(UnaryShape(DeRefOf)) case 0x84 => Some(BinaryShape(ConcatRes))
    case 0x85 => Some(BinaryShape(Mod)) case 0x86 => Some(NotifyShape)
    case 0x87 => Some(UnaryShape(SizeOf)) case 0x88 => Some(BinaryShape(Index))
    case 0x8A => Some(BinaryShape(CreateDWordField)) case 0x8E => Some(UnaryShape(ObjectType))
    case 0x8F => Some(BinaryShape(CreateQWordField)) case 0x93 => Some(CompareShape(Equal, false))
    case 0x94 => Some(CompareShape(GreaterThan, false)) case 0x95 => Some(CompareShape(LessThan, false))
    case 0x96 => Some(ConvertShape(ToBuffer)) case 0x99 => Some(ConvertShape(ToInteger))
    case 0x9C => Some(BinaryShape(ToString)) case 0x9E => Some(MidShape)
    case 0xA4 => Some(UnaryShape(Return))
    case _ => None
  }

  /** Reads an opcode that takes operands only; LNotOp is read together with what it negates. */
  function ReadShape(bs: seq<byte>): (r: Parsed<Shape>)
    ensures r.Got? ==> |r.rest| < |bs|
  {
    if bs == [] then Fail
    else if bs[0] == 0x92 then
      if |bs| > 1 && CompareOf(bs[1]).Some? then Got(CompareShape(CompareOf(bs[1]).value, true), bs[2..]) else Fail
    else if bs[0] == 0x5B then
      if |bs| > 1 && bs[1] == 0x13 then Got(CreateFieldShape, bs[2..]) else Fail
    else
      match ShapeOf(bs[0])
      case None => Fail
      case Some(shape) => Got(shape, bs[1..])
  }

  // ----- leaves -----

  function ReadLe(bs: seq<byte>, n: nat): (r: Parsed<nat>)
    ensures r.Got? ==> |r.rest| + n == |bs| && r.value < Pow256(n)
  {
    if |bs| < n then Fail
    else
      FromLeBound(bs[..n]);
      Got(FromLe(bs[..n]), bs[n..])
  }

  function ReadInt(bs: seq<byte>): (r: Parsed<u64>)
    ensures r.Got? ==> |r.rest| < |bs|
  {
    if bs == [] then Fail
    else if bs[0] == 0x00 then Got(0, bs[1..])
    else if bs[0] == 0x01 then Got(1, bs[1..])
    else
      var width := match bs[0] case 0x0A => 1 case 0x0B => 2 case 0x0C => 4 case 0x0E => 8 case _ => 0;
      PowersOf256();
      if width == 0 then Fail
      else
        match ReadLe(bs[1..], width)
        case Fail => Fail
        case Got(v, rest) => Got(v, rest)
  }

  /** A NameString other than the null name. */
  function ReadPath(bs: seq<byte>): (r: Parsed<Path>)
    ensures r.Got? ==> |r.rest| < |bs|
  {
    match Names.Read(bs)
    case Fail => Fail
    case Got(p, rest) => if p.segs == [] then Fail else Got(p, rest)
  }

  predicate IntLead(b: byte) { b in {0x00, 0x01, 0x0A, 0x0B, 0x0C, 0x0E} }

  /** The characters up to the first NUL. */
  function ReadChars(bs: seq<byte>): (r: Parsed<seq<byte>>)
    ensures r.Got? ==> |r.rest| < |bs|
  {
    if bs == [] then Fail
    else if bs[0] == 0x00 then Got([], bs[1..])
    else
      match ReadChars(bs[1..])
      case Fail => Fail
      case Got(chars, rest) => Got([bs[0]] + chars, rest)
  }

  function ReadEntries(bs: seq<byte>): Option<seq<FieldEntry>>
    decreases |bs|
  {
    if bs == [] then Some([])
    else
      var named := bs[0] != 0x00;
      var start := if named then 4 else 1;
      if |bs| < start || (named && !Names.NameSeg(bs[..4])) then None
      else
        match PkgLength.Decode(bs[start..])
        case None => None
        case Some((width, w)) =>
          if |bs| < start + w then None
          else
            match ReadEntries(bs[start + w..])
            case None => None
            case Some(rest) => Some([if named then Named(bs[..4], width) else Reserved(width)] + rest)
  }

  // ----- terms -----

  predicate PackageLead(b: byte) { b in {0x10, 0x11, 0x12, 0x13, 0x14, 0xA0, 0xA1, 0xA2} }

  /** Reads one term. */
  function Decode(bs: seq<byte>, arities: Arities): (r: Parsed<Term>)
    ensures r.Got? ==> |r.rest| < |bs|
    decreases |bs|, 0
  {
    if bs == [] then Fail
    else if ReadShape(bs).Got? then
      var Got(shape, more) := ReadShape(bs);
      match DecodeSome(more, Arity(shape), arities)
      case Fail => Fail
      case Got(operands, rest) => Got(Build(shape, operands), rest)
    else if IntLead(bs[0]) then
      match ReadInt(bs) case Fail => Fail case Got(v, rest) => Got(Int(v), rest)
    else if bs[0] == 0xFF then Got(Ones, bs[1..])
    else if bs[0] == 0x0D then
      match ReadChars(bs[1..]) case Fail => Fail case Got(chars, rest) => Got(Str(chars), rest)
    else if 0x60 <= bs[0] <= 0x67 then Got(Local(bs[0] - 0x60), bs[1..])
    else if 0x68 <= bs[0] <= 0x6E then Got(Arg(bs[0] - 0x68), bs[1..])
    else if bs[0] == 0x08 then
      match ReadPath(bs[1..])
      case Fail => Fail
      case Got(path, more) =>
        match Decode(more, arities) case Fail => Fail case Got(inner, rest) => Got(NameDecl(path, inner), rest)
    else if bs[0] == 0x5B then
      if |bs| < 2 then Fail else DecodeExtended(bs[1], bs[2..], arities)
    else if PackageLead(bs[0]) then
      match PkgLength.Delimited(bs[1..])
      case Fail => Fail
      case Got(content, rest) =>
        match DecodeContent(bs[0], content, arities) case None => Fail case Some(t) => Got(t, rest)
    else
      match ReadPath(bs)
      case Fail => Fail
      case Got(path, more) =>
        match DecodeSome(more, ArityOf(arities, path), arities)
        case Fail => Fail
        case Got(args, rest) => Got(MethodCall(path, args), rest)
  }

  /** The terms behind ExtOpPrefix. */
  function DecodeExtended(op: byte, bs: seq<byte>, arities: Arities): (r: Parsed<Term>)
    ensures r.Got? ==> |r.rest| <= |bs|
    decreases |bs|, 2
  {
    if op == 0x81 || op == 0x82 then
      match PkgLength.Delimited(bs)
      case Fail => Fail
      case Got(content, rest) =>
        match if op == 0x81 then DecodeField(content) else DecodeContent(op, content, arities)
        case None => Fail
        case Some(t) => Got(t, rest)
    else
      match ReadPath(bs)
      case Fail => Fail
      case Got(path, more) =>
        match op
        case 0x01 => if more == [] then Fail else Got(Mutex(path, more[0]), more[1..])
        case 0x23 =>
          PowersOf256();
          (match ReadLe(more, 2) case Fail => Fail case Got(timeout, rest) => Got(Acquire(path, timeout), rest))
        case 0x27 => Got(Release(path), more)
        case 0x80 =>
          if more == [] || more[0] > 9 then Fail
          else
            (match DecodeSome(more[1..], 2, arities)
             case Fail => Fail
             case Got(ts, rest) => Got(OpRegion(path, more[0], ts[0], ts[1]), rest))
        case _ => Fail
  }

  function DecodeField(bs: seq<byte>): Option<Term> {
    match ReadPath(bs)
    case Fail => None
    case Got(path, more) =>
      if more == [] || more[0] % 16 > 5 || more[0] / 32 > 2 then None
      else
        match ReadEntries(more[1..])
        case None => None
        case Some(es) => Some(Field(path, more[0] % 16, more[0] / 16 % 2 == 1, more[0] / 32, es))
  }

  /** The content of a term with an explicit length. */
  function DecodeContent(op: byte, bs: seq<byte>, arities: Arities): Option<Term>
    decreases |bs|, 2
  {
    match op
    case 0x12 =>
      if bs == [] then None
      else
        (match DecodeElements(bs[1..], arities)
         case None => None
         case Some(ts) => if |ts| == bs[0] then Some(Package(ts)) else None)
    case 0x13 =>
      (match Decode(bs, arities)
       case Fail => None
       case Got(t, rest) => if rest == [] then Some(VarPackage(t)) else None)
    case 0x11 => (match Decode(bs, arities) case Fail => None case Got(size, bytes) => Some(Buffer(size, bytes)))
    case 0xA1 => (match DecodeAll(bs, arities) case None => None case Some(ts) => Some(Else(ts)))
    case _ =>
      if op == 0xA0 || op == 0xA2 then
        match Decode(bs, arities)
        case Fail => None
        case Got(condition, more) =>
          (match DecodeAll(more, arities)
           case None => None
           case Some(ts) => Some(if op == 0xA0 then If(condition, ts) else While(condition, ts)))
      else
        match ReadPath(bs)
        case Fail => None
        case Got(path, more) =>
          if op == 0x14 then
            if more == [] || more[0] >= 16 then None
            else
              (match DecodeAll(more[1..], arities)
               case None => None
               case Some(ts) => Some(Method(path, more[0] % 8, more[0] / 8 == 1, ts)))
          else
            (match DecodeAll(more, arities)
             case None => None
             case Some(ts) =>
               if op == 0x10 then Some(Scope(path, ts)) else if op == 0x82 then Some(Device(path, ts)) else None)
  }

  /** The first bytes of data. */
  predicate DataLead(b: byte) { IntLead(b) || b in {0xFF, 0x0D, 0x11, 0x12, 0x13} }

  /** Reads package elements until the bytes are used up: data, or names without arguments. */
  function DecodeElements(bs: seq<byte>, arities: Arities): Option<seq<Term>>
    decreases |bs|, 1, 0
  {
    if bs == [] then Some([])
    else
      match if DataLead(bs[0]) then Decode(bs, arities) else ReadName(bs)
      case Fail => None
      case Got(t, rest) =>
        match DecodeElements(rest, arities) case None => None case Some(ts) => Some([t] + ts)
  }

  function ReadName(bs: seq<byte>): (r: Parsed<Term>)
    ensures r.Got? ==> |r.rest| < |bs|
  {
    match ReadPath(bs) case Fail => Fail case Got(path, rest) => Got(MethodCall(path, []), rest)
  }

  /** Reads exactly `n` terms. */
  function DecodeSome(bs: seq<byte>, n: nat, arities: Arities): (r: Parsed<seq<Term>>)
    ensures r.Got? ==> |r.value| == n && |r.rest| <= |bs|
    decreases |bs|, 1, n
  {
    if n == 0 then Got([], bs)
    else
      match Decode(bs, arities)
      case Fail => Fail
      case Got(t, more) =>
        match DecodeSome(more, n - 1, arities) case Fail => Fail case Got(ts, rest) => Got([t] + ts, rest)
  }

  /** Reads terms until the bytes are used up. */
  function DecodeAll(bs: seq<byte>, arities: Arities): Option<seq<Term>>
    decreases |bs|, 1, 0
  {
    if bs == [] then Some([])
    else
      match Decode(bs, arities)
      case Fail => None
      case Got(t, rest) =>
        match DecodeAll(rest, arities) case None => None case Some(ts) => Some([t] + ts)
  }
}
