/** encode_dsdt_with_padding of src/acpi/dsdt/mod.rs: a zero-filled buffer named QPAD is added to
    the definition block, sized by binary search so that the block reaches a wanted length. */
module DsdtPadding {
  import opened Bytes
  import opened Terms
  import Names
  import PkgLength
  import AmlSink

  const QPAD: Path := Names.Path(false, 0, [[0x51, 0x50, 0x41, 0x44]])

  /** What encode_dsdt_body appends for `padLen` bytes of padding. */
  function PadBytes(padLen: nat): seq<byte>
    requires padLen <= U64_MAX
  {
    if padLen == 0 then [] else Encode(NameDecl(QPAD, BufferData(Fill(padLen, 0))))
  }

  /** encode_dsdt_body; `base` stands for the body without padding. */
  method EncodeDsdtBody(base: seq<byte>, padLen: nat) returns (body: seq<byte>)
    requires padLen <= U64_MAX
    ensures body == base + PadBytes(padLen)
  {
    hide Encode;
    body := base;
    if padLen > 0 {
      var sink := new ByteVec();
      AmlSink.ToAmlBytes(NameDecl(QPAD, BufferData(Fill(padLen, 0))), sink);
      assert sink.data == PadBytes(padLen);
      body := body + sink.data;
    }
  }

  /** The padding is the declaration of a buffer named QPAD that ends in as many zeros. */
  lemma PadShape(p: nat)
    requires 0 < p <= U64_MAX
    ensures var bs := PadBytes(p);
            |bs| >= p + 6 && bs[..6] == [0x08] + Ascii("QPAD") + [0x11] && bs[|bs| - p..] == Fill(p, 0)
  {
    var buffer := BufferData(Fill(p, 0));
    var bs, content := PadBytes(p), Content(buffer);
    assert Ascii("QPAD") == QPAD.segs[0];
    assert buffer == Buffer(Int(p), Fill(p, 0)) && Encode(Int(p)) == EncodeInt(p);
    assert content == EncodeInt(p) + Fill(p, 0);
    assert Encode(buffer) == [0x11] + PkgLength.Encode(|content|, true) + content;
    assert bs == [0x08] + Names.Encode(QPAD) + Encode(buffer);
    var head := [0x08] + Names.Encode(QPAD) + [0x11] + PkgLength.Encode(|content|, true) + EncodeInt(p);
    assert Names.Encode(QPAD) == QPAD.segs[0] by { NameIs(); }
    hide EncodeInt, PkgLength.Encode;
    assert bs == head + Fill(p, 0);
  }

  lemma NameIs()
    ensures Names.Encode(QPAD) == QPAD.segs[0]
  {
    assert QPAD.segs[1..] == [];
    assert Names.Concat(QPAD.segs) == QPAD.segs[0] + Names.Concat([]);
    assert Fill(0, Names.CARET) == [];
  }

  // ----- how long the padding is -----

  function IntLen(v: u64): nat {
    if v <= 1 then 1 else if v <= 0xFF then 2 else if v <= 0xFFFF then 3 else if v <= 0xFFFF_FFFF then 5 else 9
  }

  /** NameOp, QPAD, BufferOp, the package length, the buffer size, the bytes. */
  function PadLength(p: nat): nat
    requires p <= U64_MAX
  {
    if p == 0 then 0 else 6 + PkgLength.Width(IntLen(p) + p) + IntLen(p) + p
  }

  lemma PadLengthIs(p: nat)
    requires p <= U64_MAX
    ensures |PadBytes(p)| == PadLength(p)
  {
    if p > 0 {
      var buffer := BufferData(Fill(p, 0));
      IntLenIs(p);
      assert |Content(buffer)| == IntLen(p) + p;
      assert |Encode(buffer)| == 1 + PkgLength.Width(IntLen(p) + p) + IntLen(p) + p;
      NameLength();
    }
  }

  lemma IntLenIs(v: u64)
    ensures |EncodeInt(v)| == IntLen(v)
  {
    hide Le;
  }

  lemma NameLength()
    ensures |Names.Encode(QPAD)| == 4
  {
    assert Names.Concat(QPAD.segs) == QPAD.segs[0] + Names.Concat([]);
  }

  /** One more byte of padding makes the block at least one byte longer. */
  lemma {:induction false} StrictlyIncreasing(p: nat, q: nat)
    requires p < q <= U64_MAX
    ensures PadLength(p) < PadLength(q)
    decreases q - p
  {
    if p + 1 < q {
      StrictlyIncreasing(p, q - 1);
    }
  }

  lemma AtLeast(p: nat)
    requires p <= U64_MAX
    ensures PadLength(p) >= p
    ensures 0 < p <= 0xFFFF_FFFF ==> p + 8 <= PadLength(p) <= p + 15
    ensures 0 < p <= 8 ==> PadLength(p) <= p + 9
  {
  }

  /** The lengths no padding has: 1 to 8, and one gap wherever the size field or the package length
      grows. */
  predicate Gap(d: nat) {
    1 <= d <= 8 || d == 10 || d == 70 || d == 266 || d == 4102 || d == 65548 || d == 65549 || d == 1048582
  }

  /** The padding that is `d` bytes long. */
  function Inverse(d: nat): nat {
    if d <= 8 then 0
    else if d <= 10 then 1
    else if d <= 70 then d - 9
    else if d <= 266 then d - 10
    else if d <= 4102 then d - 11
    else if d <= 65549 then d - 12
    else if d <= 1048582 then d - 14
    else d - 15
  }

  predicate Hits(p: nat, d: nat) { p <= U64_MAX && PadLength(p) == d }

  /** Below 4 GiB a length is reached by some padding exactly when it is not a gap. */
  lemma ReachedUnlessGap(d: u32)
    ensures (exists p :: Hits(p, d)) <==> !Gap(d)
  {
    if Gap(d) {
      var q := if d <= 8 then 0 else if d == 10 then 1 else if d == 70 then 60 else if d == 266 then 255
               else if d == 4102 then 4090 else if d <= 65549 then 65535 else 1048567;
      assert PadLength(q) < d < PadLength(q + 1);
      forall p: nat | p <= U64_MAX
        ensures !Hits(p, d)
      {
        if p < q {
          StrictlyIncreasing(p, q);
        } else if p > q + 1 {
          StrictlyIncreasing(q + 1, p);
        }
      }
    } else {
      assert Hits(Inverse(d), d);
    }
  }

  // ----- the search -----

  /** The binary search ended between `high`, which is too short, and `high + 1`, too long: what the
      fallback then tries is too long by at most 9 bytes. */
  lemma Overshoot(high: nat, d: u32)
    requires high < U64_MAX && PadLength(high) < d < PadLength(high + 1)
    ensures var p := high + (d - PadLength(high)); p <= U64_MAX && d < PadLength(p) <= d + 9
  {
    var p := high + (d - PadLength(high));
    AtLeast(high);
    AtLeast(p);
    if high + 1 < p {
      StrictlyIncreasing(high + 1, p);
    }
  }

  lemma {:induction false} GrowsWith(p: nat, more: nat)
    requires p + more <= U64_MAX
    ensures PadLength(p + more) >= PadLength(p) + more
    decreases more
  {
    if more > 0 {
      GrowsWith(p, more - 1);
      StrictlyIncreasing(p + more - 1, p + more);
    }
  }

  /** The fallback loop: what is missing is added to the padding; one round is always enough. */
  method Fallback(base: seq<byte>, start: seq<byte>, high: nat, targetBodyLen: nat)
    returns (candidate: seq<byte>, ghost rounds: nat)
    requires high <= targetBodyLen <= U32_MAX && start == base + PadBytes(high) && |start| < targetBodyLen
    ensures rounds <= 1 && candidate == base + PadBytes(high + (targetBodyLen - |start|))
  {
    hide PadBytes, PadLength;
    rounds := 0;
    candidate := start;
    while |candidate| < targetBodyLen
      invariant rounds == 0 ==> candidate == start
      invariant rounds > 0 ==> rounds == 1 && |candidate| >= targetBodyLen
      invariant rounds > 0 ==> candidate == base + PadBytes(high + (targetBodyLen - |start|))
      decreases 1 - rounds
    {
      var missing := targetBodyLen - |candidate|;
      PadLengthIs(high);
      PadLengthIs(high + missing);
      GrowsWith(high, missing);
      candidate := EncodeDsdtBody(base, high + missing);
      rounds := rounds + 1;
      if |candidate| > targetBodyLen {
        break;
      }
    }
  }

  /** encode_dsdt_with_padding.  The target is that of a table whose header takes 36 bytes.  Without a
      target, or when the body is long enough, the body is not touched; otherwise it is extended to
      exactly the target if some padding gets there, and else beyond it by at most 9 bytes.  The fallback
      loop runs at most once. */
  method EncodeDsdtWithPadding(base: seq<byte>, target: Option<u32>) returns (result: seq<byte>, ghost rounds: nat)
    ensures base <= result && rounds <= 1
    ensures target == None || target.value <= 36 + |base| ==> result == base
    ensures target.Some? && 36 + |base| < target.value ==>
              exists p: nat :: p <= U64_MAX && result == base + PadBytes(p)
    ensures target.Some? && 36 + |base| < target.value ==>
              if Gap(target.value - 36 - |base|) then target.value < 36 + |result| <= target.value + 9
              else 36 + |result| == target.value
  {
    hide PadBytes, PadLength;
    rounds := 0;
    var body := EncodeDsdtBody(base, 0);
    NoPadding(base);
    if target == None {
      return body, 0;
    }
    var targetBodyLen := if target.value > 36 then target.value - 36 else 0;
    if |body| >= targetBodyLen {
      return body, 0;
    }
    ghost var d: u32 := targetBodyLen - |base|;
    ReachedUnlessGap(d);

    var low, high := 0, targetBodyLen - |body|;
    var best: Option<seq<byte>> := None;
    AtLeast(high + 1);
    while low <= high
      invariant 0 <= low <= high + 1 <= d + 1
      invariant low > 0 ==> PadLength(low - 1) < d
      invariant d < PadLength(high + 1)
      invariant best == if low == 0 then None else Some(base + PadBytes(low - 1))
      decreases high - low
    {
      var mid := (low + high) / 2;
      var candidate := EncodeDsdtBody(base, mid);
      PadLengthIs(mid);
      if |candidate| == targetBodyLen {
        assert Hits(mid, d);
        return candidate, 0;
      } else if |candidate| < targetBodyLen {
        best := Some(candidate);
        low := mid + 1;
      } else {
        if mid == 0 {
          break;
        }
        high := mid - 1;
      }
    }
    assert low == high + 1 && low > 0;
    NothingBetween(high, d);
    var candidate := if best.Some? then best.value else base;
    PadLengthIs(high);
    Overshoot(high, d);
    PadLengthIs(high + (d - PadLength(high)));
    result, rounds := Fallback(base, candidate, high, targetBodyLen);
  }

  lemma NoPadding(base: seq<byte>)
    ensures base + PadBytes(0) == base && PadLength(0) == 0
  {
  }

  lemma NothingBetween(high: nat, d: nat)
    requires high < U64_MAX && PadLength(high) < d < PadLength(high + 1)
    ensures !exists p :: Hits(p, d)
  {
    forall p: nat | p <= U64_MAX
      ensures !Hits(p, d)
    {
      if p < high {
        StrictlyIncreasing(p, high);
      } else if p > high + 1 {
        StrictlyIncreasing(high + 1, p);
      }
    }
  }
}
