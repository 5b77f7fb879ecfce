/** NameStrings (section 20.2.2 of ACPI 5.0): the dotted-name parser of the C builder, the
    Rust Path, and the decoder both are measured against.  Characters are their byte codes. */
module Names {
  import opened Bytes

  const DOT: byte := 0x2E
  const ROOT: byte := 0x5C
  const CARET: byte := 0x5E
  const PAD: byte := 0x5F

  predicate LeadChar(b: byte) { 0x41 <= b <= 0x5A || b == 0x5F }

  predicate NameChar(b: byte) { LeadChar(b) || 0x30 <= b <= 0x39 }

  /** A NameSeg of up to four characters, before padding. */
  predicate ShortSeg(s: seq<byte>) {
    1 <= |s| <= 4 && LeadChar(s[0]) && forall i :: 0 <= i < |s| ==> NameChar(s[i])
  }

  predicate NameSeg(s: seq<byte>) { |s| == 4 && ShortSeg(s) }

  predicate AllShort(segs: seq<seq<byte>>) { forall i :: 0 <= i < |segs| ==> ShortSeg(segs[i]) }

  predicate AllNameSegs(segs: seq<seq<byte>>) { forall i :: 0 <= i < |segs| ==> NameSeg(segs[i]) }

  /** Root or `carets` parent prefixes, then the segments. */
  datatype Path = Path(root: bool, carets: nat, segs: seq<seq<byte>>)

  predicate Legal(p: Path) {
    (p.root ==> p.carets == 0) && 1 <= |p.segs| <= 255 && AllNameSegs(p.segs)
  }

  function Concat(segs: seq<seq<byte>>): seq<byte> {
    if segs == [] then [] else segs[0] + Concat(segs[1..])
  }

  function Prefix(p: Path): seq<byte> {
    (if p.root then [ROOT] else []) + Fill(p.carets, CARET)
  }

  /** Path::to_aml_bytes.  `n as u8` truncates a segment count above 255. */
  function Encode(p: Path): seq<byte> {
    Prefix(p) + NamePath(p.segs)
  }

  function NamePath(segs: seq<seq<byte>>): seq<byte> {
    (match |segs|
     case 0 => [0x00]
     case 1 => []
     case 2 => [0x2E]
     case n => [0x2F, n % 256]) + Concat(segs)
  }

  /** Path::to_aml_bytes, pushing into a sink; an empty path panics there. */
  method PathToAmlBytes(p: Path, sink: ByteVec)
    requires p.segs != []
    modifies sink
    ensures sink.data == old(sink.data) + Encode(p)
  {
    if p.root {
      sink.Push(ROOT);
    }
    sink.Extend(Fill(p.carets, CARET));
    match |p.segs| {
      case 1 =>
      case 2 => sink.Push(0x2E);
      case n =>
        sink.Push(0x2F);
        sink.Push(n % 256);
    }
    ExtendAll(p.segs, sink);
  }

  method ExtendAll(segs: seq<seq<byte>>, sink: ByteVec)
    modifies sink
    ensures sink.data == old(sink.data) + Concat(segs)
  {
    for i := 0 to |segs|
      invariant sink.data + Concat(segs[i..]) == old(sink.data) + Concat(segs)
    {
      sink.Extend(segs[i]);
      assert segs[i..][1..] == segs[i + 1..];
    }
  }

  // ----- decoding -----

  function ReadSegs(bs: seq<byte>, n: nat): (r: Parsed<seq<seq<byte>>>)
    ensures r.Got? ==> |r.rest| + 4 * n == |bs|
    decreases n
  {
    if n == 0 then Got([], bs)
    else if |bs| < 4 || !NameSeg(bs[..4]) then Fail
    else
      match ReadSegs(bs[4..], n - 1)
      case Fail => Fail
      case Got(segs, rest) => Got([bs[..4]] + segs, rest)
  }

  function ReadNamePath(bs: seq<byte>): (r: Parsed<seq<seq<byte>>>)
    ensures r.Got? ==> |r.rest| < |bs|
  {
    if bs == [] then Fail
    else if bs[0] == 0x00 then Got([], bs[1..])
    else if bs[0] == 0x2E then ReadSegs(bs[1..], 2)
    else if bs[0] == 0x2F then
      if |bs| < 2 || bs[1] == 0 then Fail else ReadSegs(bs[2..], bs[1])
    else ReadSegs(bs, 1)
  }

  function Carets(bs: seq<byte>): (n: nat)
    ensures n <= |bs|
  {
    if bs != [] && bs[0] == 0x5E then 1 + Carets(bs[1..]) else 0
  }

  /** NameString := RootChar NamePath | PrefixPath NamePath. */
  function Read(bs: seq<byte>): (r: Parsed<Path>)
    ensures r.Got? ==> |r.rest| < |bs|
  {
    var root := bs != [] && bs[0] == 0x5C;
    var carets := if root then 0 else Carets(bs);
    match ReadNamePath(bs[carets + if root then 1 else 0..])
    case Fail => Fail
    case Got(segs, rest) => Got(Path(root, carets, segs), rest)
  }

  lemma {:induction false} ReadSegsRoundTrip(segs: seq<seq<byte>>, rest: seq<byte>)
    requires AllNameSegs(segs)
    ensures ReadSegs(Concat(segs) + rest, |segs|) == Got(segs, rest)
  {
    if segs == [] {
      assert Concat(segs) + rest == rest;
    } else {
      var bs := Concat(segs) + rest;
      assert bs[..4] == segs[0];
      assert bs[4..] == Concat(segs[1..]) + rest;
      ReadSegsRoundTrip(segs[1..], rest);
      assert [segs[0]] + segs[1..] == segs;
    }
  }

  lemma {:induction false} CaretsCounted(n: nat, rest: seq<byte>)
    requires rest == [] || rest[0] != CARET
    ensures Carets(Fill(n, CARET) + rest) == n
  {
    var bs := Fill(n, CARET) + rest;
    if n == 0 {
      assert bs == rest;
    } else {
      assert bs[1..] == Fill(n - 1, CARET) + rest;
      CaretsCounted(n - 1, rest);
    }
  }

  lemma ReadNamePathRoundTrip(segs: seq<seq<byte>>, rest: seq<byte>)
    requires 1 <= |segs| <= 255 && AllNameSegs(segs)
    ensures ReadNamePath(NamePath(segs) + rest) == Got(segs, rest)
    ensures NamePath(segs)[0] != CARET && NamePath(segs)[0] != ROOT
  {
    var body := NamePath(segs) + rest;
    ReadSegsRoundTrip(segs, rest);
    assert NameSeg(segs[0]);
    match |segs| {
      case 1 => assert body == Concat(segs) + rest;
      case 2 => assert body[1..] == Concat(segs) + rest;
      case _ => assert body[2..] == Concat(segs) + rest;
    }
  }

  /** Every legal path is read back, whatever follows it. */
  lemma RoundTrip(p: Path, rest: seq<byte>)
    requires Legal(p)
    ensures Read(Encode(p) + rest) == Got(p, rest)
  {
    var bs := Encode(p) + rest;
    var body := NamePath(p.segs) + rest;
    assert bs == Prefix(p) + body;
    ReadNamePathRoundTrip(p.segs, rest);
    if p.root {
      assert bs[1..] == body;
    } else {
      CaretsCounted(p.carets, body);
      assert Prefix(p) == Fill(p.carets, CARET);
      assert bs[p.carets..] == body;
    }
  }

  // ----- the C dotted-name parser -----

  /** Splitting at every dot; splitting nothing gives one empty piece. */
  function Split(s: seq<byte>): (r: seq<seq<byte>>)
    ensures r != []
  {
    if s == [] then [[]]
    else
      var r := Split(s[1..]);
      if s[0] == DOT then [[]] + r else [[s[0]] + r[0]] + r[1..]
  }

  /** g_strsplit, which gives no piece at all for the empty string. */
  function GStrsplit(s: seq<byte>): seq<seq<byte>> {
    if s == [] then [] else Split(s)
  }

  /** How many leading `\` and `^` the first piece has. */
  function PrefixLen(s: seq<byte>): (n: nat)
    ensures n <= |s|
    ensures forall i :: 0 <= i < n ==> s[i] == ROOT || s[i] == CARET
    ensures n < |s| ==> s[n] != ROOT && s[n] != CARET
  {
    if s != [] && (s[0] == ROOT || s[0] == CARET) then 1 + PrefixLen(s[1..]) else 0
  }

  /** build_append_nameseg pads a segment with `_`. */
  function Padded(seg: seq<byte>): (r: seq<byte>)
    ensures seg <= r && (|seg| <= 4 ==> |r| == 4) && forall i :: |seg| <= i < |r| ==> r[i] == 0x5F
  {
    seg + Fill(if |seg| < 4 then 4 - |seg| else 0, PAD)
  }

  function PadAll(segs: seq<seq<byte>>): (r: seq<seq<byte>>)
    ensures |r| == |segs| && forall i :: 0 <= i < |segs| ==> r[i] == Padded(segs[i])
  {
    seq(|segs|, i requires 0 <= i < |segs| => Padded(segs[i]))
  }

  /** The bytes build_append_namestringv appends, or None where an assertion stops it. */
  function CName(s: seq<byte>): Option<seq<byte>> {
    var pieces := GStrsplit(s);
    if !(0 < |pieces| <= 255) then None
    else
      var k := PrefixLen(pieces[0]);
      var segs := [pieces[0][k..]] + pieces[1..];
      if exists i :: 0 <= i < |segs| && |segs[i]| > 4 then None
      else if |segs| == 1 && segs[0] == [] then Some(pieces[0][..k] + [0x00])
      else Some(pieces[0][..k] + NamePath(PadAll(segs)))
  }

  method BuildAppendNameseg(table: ByteVec, seg: seq<byte>) returns (ok: bool)
    modifies table
    ensures ok <==> |seg| <= 4
    ensures ok ==> table.data == old(table.data) + Padded(seg)
  {
    if |seg| > 4 {
      return false;
    }
    table.Extend(seg);
    table.Extend(Fill(4 - |seg|, PAD));
    return true;
  }

  /** The segments of a multi-segment name, one build_append_nameseg each. */
  method BuildAppendNamesegs(table: ByteVec, segs: seq<seq<byte>>) returns (ok: bool)
    modifies table
    ensures ok <==> forall i :: 0 <= i < |segs| ==> |segs[i]| <= 4
    ensures ok ==> table.data == old(table.data) + Concat(PadAll(segs))
  {
    ghost var padded: seq<seq<byte>> := [];
    for i := 0 to |segs|
      invariant forall j :: 0 <= j < i ==> |segs[j]| <= 4
      invariant |padded| == i && forall j :: 0 <= j < i ==> padded[j] == Padded(segs[j])
      invariant table.data == old(table.data) + Concat(padded)
    {
      var fits := BuildAppendNameseg(table, segs[i]);
      if !fits {
        return false;
      }
      ConcatSnoc(padded, Padded(segs[i]));
      padded := padded + [Padded(segs[i])];
    }
    assert padded == PadAll(segs);
    return true;
  }

  lemma {:induction false} ConcatSnoc(segs: seq<seq<byte>>, s: seq<byte>)
    ensures Concat(segs + [s]) == Concat(segs) + s
  {
    if segs == [] {
      assert segs + [s] == [s];
      assert Concat([s]) == s + Concat([]);
    } else {
      assert (segs + [s])[1..] == segs[1..] + [s];
      ConcatSnoc(segs[1..], s);
    }
  }

  /** Copies the leading prefix characters and counts them. */
  method AppendPrefix(table: ByteVec, s: seq<byte>) returns (k: nat)
    modifies table
    ensures k == PrefixLen(s) && table.data == old(table.data) + s[..k]
  {
    k := 0;
    while k < |s| && (s[k] == ROOT || s[k] == CARET)
      invariant k <= |s| && PrefixLen(s) == k + PrefixLen(s[k..])
      invariant table.data == old(table.data) + s[..k]
    {
      table.Push(s[k]);
      assert s[k..][1..] == s[k + 1..];
      k := k + 1;
    }
  }

  /** DualNamePrefix, or MultiNamePrefix and the count. */
  method AppendSegCount(table: ByteVec, segCount: nat)
    requires 1 <= segCount <= 255
    modifies table
    ensures table.data == old(table.data)
          + if segCount == 1 then [] else if segCount == 2 then [0x2E] else [0x2F, segCount]
  {
    if segCount == 2 {
      table.Push(0x2E);
    } else if segCount > 2 {
      table.Push(0x2F);
      table.Push(segCount);
    }
  }

  /** build_append_namestringv: `ok` is false where an assertion stops the program. */
  method BuildAppendNamestringv(table: ByteVec, s: seq<byte>) returns (ok: bool)
    modifies table
    ensures ok <==> CName(s).Some?
    ensures ok ==> table.data == old(table.data) + CName(s).value
  {
    var pieces := GStrsplit(s);
    var segCount := |pieces|;
    if !(segCount > 0 && segCount <= 255) {
      return false;
    }
    var k := AppendPrefix(table, pieces[0]);
    var segs := [pieces[0][k..]] + pieces[1..];
    if segCount == 1 && segs[0] == [] {
      table.Push(0x00);
      return true;
    }
    AppendSegCount(table, segCount);
    ok := BuildAppendNamesegs(table, segs);
  }

  // ----- the name text -----

  /** The dotted text of a path whose segments may be shorter than four characters. */
  function Text(p: Path): seq<byte>
    requires p.segs != []
  {
    Prefix(p) + Join(p.segs)
  }

  function Join(segs: seq<seq<byte>>): seq<byte>
    requires segs != []
  {
    if |segs| == 1 then segs[0] else segs[0] + [0x2E] + Join(segs[1..])
  }

  lemma {:induction false} SplitWord(word: seq<byte>, rest: seq<byte>)
    requires DOT !in word
    ensures Split(word + rest) == [word + Split(rest)[0]] + Split(rest)[1..]
  {
    if word == [] {
      assert word + rest == rest;
      assert word + Split(rest)[0] == Split(rest)[0];
    } else {
      assert (word + rest)[1..] == word[1..] + rest;
      SplitWord(word[1..], rest);
      assert [word[0]] + (word[1..] + Split(rest)[0]) == word + Split(rest)[0];
    }
  }

  lemma {:induction false} SplitJoin(segs: seq<seq<byte>>)
    requires segs != [] && forall i :: 0 <= i < |segs| ==> DOT !in segs[i]
    ensures Split(Join(segs)) == segs
  {
    if |segs| == 1 {
      SplitWord(segs[0], []);
      assert segs[0] + [] == segs[0];
    } else {
      SplitJoin(segs[1..]);
      var tail := [DOT] + Join(segs[1..]);
      assert tail[1..] == Join(segs[1..]);
      SplitWord(segs[0], tail);
      assert segs[0] + tail == Join(segs);
      assert Split(tail) == [[]] + segs[1..];
      assert segs[0] + [] == segs[0];
    }
  }

  lemma {:induction false} PrefixLenIs(prefix: seq<byte>, word: seq<byte>)
    requires forall i :: 0 <= i < |prefix| ==> prefix[i] == ROOT || prefix[i] == CARET
    requires word == [] || (word[0] != ROOT && word[0] != CARET)
    ensures PrefixLen(prefix + word) == |prefix|
  {
    if prefix == [] {
      assert prefix + word == word;
    } else {
      assert (prefix + word)[1..] == prefix[1..] + word;
      PrefixLenIs(prefix[1..], word);
    }
  }

  /** The C builder emits, for the text of a path, the encoding of the path with every segment
      padded to four characters. */
  lemma CNameEncodes(p: Path)
    requires (p.root ==> p.carets == 0) && 1 <= |p.segs| <= 255
    requires AllShort(p.segs)
    ensures CName(Text(p)) == Some(Encode(p.(segs := PadAll(p.segs))))
  {
    var prefix := Prefix(p);
    assert p.segs[0] in p.segs;
    SplitJoin(p.segs);
    SplitWord(prefix, Join(p.segs));
    assert Split(Text(p)) == [prefix + p.segs[0]] + p.segs[1..];
    PrefixLenIs(prefix, p.segs[0]);
    assert Text(p) != [] by {
      assert Split(Text(p))[0] != [];
    }
    var pieces := GStrsplit(Text(p));
    assert pieces[0][..|prefix|] == prefix;
    assert [pieces[0][|prefix|..]] + pieces[1..] == p.segs;
  }

  /** A name of prefixes alone, such as the `\\` of the root scope, becomes a null name behind them, and
      is read back as a path without segments.  No characters at all stop the program. */
  lemma CNameNull(p: Path, rest: seq<byte>)
    requires p.segs == [] && if p.root then p.carets == 0 else p.carets > 0
    ensures CName(Prefix(p)) == Some(Prefix(p) + [0x00]) && CName([]) == None
    ensures Read(Prefix(p) + [0x00] + rest) == Got(p, rest)
    ensures CName(Ascii("\\")) == Some([0x5C, 0x00])
  {
    hide CName, Read;
    NullName(Prefix(p));
    assert Ascii("\\") == [ROOT];
    NullName([ROOT]);
    assert [ROOT] + [0x00] == [0x5C, 0x00];
    ReadNull(p, rest);
    NoName();
  }

  lemma NoName()
    ensures CName([]) == None
  {
  }

  lemma ReadNull(p: Path, rest: seq<byte>)
    requires p.segs == [] && (p.root ==> p.carets == 0)
    ensures Read(Prefix(p) + [0x00] + rest) == Got(p, rest)
  {
    var prefix, more := Prefix(p), [0x00] + rest;
    var bs := prefix + [0x00] + rest;
    assert bs == prefix + more;
    assert bs[|prefix|..] == more;
    assert ReadNamePath(more) == Got([], rest) by {
      assert more[1..] == rest;
    }
    if !p.root {
      assert prefix == Fill(p.carets, CARET);
      CaretsCounted(p.carets, more);
    }
  }

  lemma NullName(prefix: seq<byte>)
    requires prefix != [] && forall i :: 0 <= i < |prefix| ==> prefix[i] == ROOT || prefix[i] == CARET
    ensures CName(prefix) == Some(prefix + [0x00])
  {
    SplitWord(prefix, []);
    assert prefix + [] == prefix;
    PrefixLenIs(prefix, []);
    assert [prefix[|prefix|..]] + [] == [[]];
  }

  lemma PaddedIsLegal(p: Path)
    requires (p.root ==> p.carets == 0) && 1 <= |p.segs| <= 255
    requires AllShort(p.segs)
    ensures Legal(p.(segs := PadAll(p.segs)))
  {
    forall i | 0 <= i < |p.segs|
      ensures NameSeg(Padded(p.segs[i]))
    {
      assert ShortSeg(p.segs[i]);
    }
  }

  /** NameString round trip: root or caret prefixes and 1 to 255 legal segments come back, each
      segment padded with `_`. */
  lemma CNameRoundTrip(p: Path, rest: seq<byte>)
    requires (p.root ==> p.carets == 0) && 1 <= |p.segs| <= 255
    requires AllShort(p.segs)
    ensures CName(Text(p)).Some?
    ensures Read(CName(Text(p)).value + rest) == Got(p.(segs := PadAll(p.segs)), rest)
  {
    CNameEncodes(p);
    PaddedIsLegal(p);
    RoundTrip(p.(segs := PadAll(p.segs)), rest);
  }

  // ----- the Rust path parser -----

  predicate AllFour(segs: seq<seq<byte>>) { forall i :: 0 <= i < |segs| ==> |segs[i]| == 4 }

  /** Path::new, or None where its assertion stops it. */
  function PathNew(name: seq<byte>): (r: Option<Path>)
    ensures r.Some? ==> r.value.carets == 0 && r.value.segs != [] && AllFour(r.value.segs)
  {
    var root := name != [] && name[0] == ROOT;
    var parts := Split(name[if root then 1 else 0..]);
    if AllFour(parts) then Some(Path(root, 0, parts)) else None
  }

  /** How the C parser cuts up a name that Path::new accepts. */
  lemma PathNewPieces(name: seq<byte>)
    requires PathNew(name).Some?
    ensures var p := PathNew(name).value;
            GStrsplit(name) == [Prefix(p) + p.segs[0]] + p.segs[1..]
  {
    var p := PathNew(name).value;
    var prefix := Prefix(p);
    var body := name[|prefix|..];
    assert name == prefix + body;
    SplitWord(prefix, body);
  }

  predicate StartsWithPrefix(seg: seq<byte>) { seg != [] && (seg[0] == ROOT || seg[0] == CARET) }

  /** On the names Path::new accepts, the two sides emit the same bytes exactly when there are at
      most 255 segments and the first one does not itself start with a prefix character. */
  lemma PathNewAgrees(name: seq<byte>)
    requires PathNew(name).Some?
    ensures var p := PathNew(name).value;
            CName(name) == Some(Encode(p)) <==> |p.segs| <= 255 && !StartsWithPrefix(p.segs[0])
  {
    var p := PathNew(name).value;
    var pieces := GStrsplit(name);
    PathNewPieces(name);
    if |p.segs| <= 255 {
      if StartsWithPrefix(p.segs[0]) {
        PathNewDiffers(name);
      } else {
        PrefixLenIs(Prefix(p), p.segs[0]);
        assert pieces[0][..|Prefix(p)|] == Prefix(p);
        assert [pieces[0][|Prefix(p)|..]] + pieces[1..] == p.segs;
        PadFull(p.segs);
      }
    }
  }

  lemma PadFull(segs: seq<seq<byte>>)
    requires AllFour(segs)
    ensures PadAll(segs) == segs
  {
    forall i | 0 <= i < |segs|
      ensures PadAll(segs)[i] == segs[i]
    {
      assert |segs[i]| == 4;
      assert Padded(segs[i]) == segs[i];
    }
  }

  lemma PathNewDiffers(name: seq<byte>)
    requires PathNew(name).Some?
    requires StartsWithPrefix(PathNew(name).value.segs[0]) && |PathNew(name).value.segs| <= 255
    ensures CName(name) != Some(Encode(PathNew(name).value))
  {
    var p := PathNew(name).value;
    var pieces := GStrsplit(name);
    PathNewPieces(name);
    var k := PrefixLen(pieces[0]);
    assert pieces[0] == Prefix(p) + p.segs[0];
    assert pieces[0][|Prefix(p)|] == p.segs[0][0];
    PrefixLenOver(Prefix(p), p.segs[0]);
    if CName(name).Some? {
      var segs := [pieces[0][k..]] + pieces[1..];
      assert AllFour(PadAll(segs));
      ConcatLength(p.segs);
      ConcatLength(PadAll(segs));
    }
  }

  lemma {:induction false} PrefixLenOver(prefix: seq<byte>, word: seq<byte>)
    requires forall i :: 0 <= i < |prefix| ==> prefix[i] == ROOT || prefix[i] == CARET
    requires StartsWithPrefix(word)
    ensures PrefixLen(prefix + word) > |prefix|
  {
    if prefix == [] {
      assert prefix + word == word;
    } else {
      assert (prefix + word)[1..] == prefix[1..] + word;
      PrefixLenOver(prefix[1..], word);
    }
  }

  lemma {:induction false} ConcatLength(segs: seq<seq<byte>>)
    requires AllFour(segs)
    ensures |Concat(segs)| == 4 * |segs|
  {
    if segs != [] {
      ConcatLength(segs[1..]);
    }
  }
}
