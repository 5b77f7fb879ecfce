/** PkgLength (section 20.2.4 of ACPI 5.0): a package length that counts its own encoding.
    The C builder prepends it with fall-through cases and 32-bit arithmetic; the Rust encoder
    pushes it byte by byte.  Both are proved against one closed form and one decoder. */
module PkgLength {
  import opened Bytes

  /** The width both encoders choose, without machine arithmetic. */
  function Width(len: nat): (w: nat)
    ensures 1 <= w <= 4
  {
    if len < 63 then 1 else if len < 4094 then 2 else if len < 1048573 then 3 else 4
  }

  /** The largest value a PkgLength of `w` bytes can hold. */
  function Capacity(w: nat): nat {
    if w <= 1 then 63 else if w == 2 then 4095 else if w == 3 then 1048575 else 268435455
  }

  /** The value a PkgLength of this content length has to carry. */
  function Carried(len: nat, inclusive: bool): nat {
    len + if inclusive then Width(len) else 0
  }

  /** The bytes of width `w` that carry `value`; a lead byte holds the width and the low bits. */
  function Layout(w: nat, value: nat): (r: seq<byte>)
    requires 1 <= w <= 4
    ensures |r| == w
  {
    if w == 1 then [value % 256] else [64 * (w - 1) + value % 16] + Le(value / 16, w - 1)
  }

  /** What src/acpi/aml.rs produces. */
  function Encode(len: nat, inclusive: bool): (r: seq<byte>)
    ensures |r| == Width(len)
  {
    Layout(Width(len), Carried(len, inclusive))
  }

  /** create_pkg_length. */
  method CreatePkgLength(len: nat, includeSelf: bool) returns (result: seq<byte>)
    ensures result == Encode(len, includeSelf)
  {
    result := [];
    var lengthLength :=
      if len < 64 - 1 then 1 else if len < 4096 - 2 then 2 else if len < 1048576 - 3 then 3 else 4;
    var length := len + if includeSelf then lengthLength else 0;
    match lengthLength {
      case 1 =>
        result := result + [length % 256];
      case 2 =>
        result := result + [0x40 + length % 16];
        result := result + [length / 16 % 256];
      case 3 =>
        result := result + [0x80 + length % 16];
        result := result + [length / 16 % 256];
        result := result + [length / 4096 % 256];
      case _ =>
        result := result + [0xC0 + length % 16];
        result := result + [length / 16 % 256];
        result := result + [length / 4096 % 256];
        result := result + [length / 1048576 % 256];
    }
    LayoutDigits(lengthLength, length);
  }

  lemma LeUnfold(v: nat)
    ensures Le(v, 1) == [v % 256]
    ensures Le(v, 2) == [v % 256, v / 256 % 256]
    ensures Le(v, 3) == [v % 256, v / 256 % 256, v / 65536 % 256]
  {
    assert Le(v, 1) == [v % 256] + Le(v / 256, 0);
    assert Le(v, 2) == [v % 256] + Le(v / 256, 1);
    assert Le(v / 256, 1) == [v / 256 % 256] + Le(v / 256 / 256, 0);
    assert Le(v, 3) == [v % 256] + Le(v / 256, 2);
    assert Le(v / 256, 2) == [v / 256 % 256] + Le(v / 256 / 256, 1);
    assert Le(v / 256 / 256, 1) == [v / 256 / 256 % 256] + Le(v / 256 / 256 / 256, 0);
    assert v / 256 / 256 == v / 65536;
  }

  // ----- the C form, with `unsigned` arithmetic -----

  function Wrap32(x: nat): u32 { x % 0x1_0000_0000 }

  function CWidth(len: u32): (w: nat)
    ensures 1 <= w <= 4
  {
    if Wrap32(len + 1) < 64 then 1
    else if Wrap32(len + 2) < 4096 then 2
    else if Wrap32(len + 3) < 1048576 then 3
    else 4
  }

  /** What aml-build.c produces. */
  function CEncode(len: u32, inclusive: bool): (r: seq<byte>)
    ensures |r| == CWidth(len)
  {
    Layout(CWidth(len), Wrap32(len + if inclusive then CWidth(len) else 0))
  }

  /** build_prepend_package_length: the most significant byte goes in first, and each case
      masks off what it wrote and falls through to the next. */
  method BuildPrependPackageLength(package: ByteVec, len: u32, inclSelf: bool)
    modifies package
    ensures package.data == CEncode(len, inclSelf) + old(package.data)
  {
    var length: u32 := len;
    var lengthBytes := 4;
    if Wrap32(length + 1) < 64 {
      lengthBytes := 1;
    } else if Wrap32(length + 2) < 4096 {
      lengthBytes := 2;
    } else if Wrap32(length + 3) < 1048576 {
      lengthBytes := 3;
    }
    if inclSelf {
      length := Wrap32(length + lengthBytes);
    }
    LayoutDigits(lengthBytes, length);
    var low;
    match lengthBytes {
      case 1 =>
        package.PrependByte(length % 256);
        return;
      case 4 => low := Case4(package, length);
      case 3 => low := Case3(package, length);
      case _ => low := Case2(package, length);
    }
    package.PrependByte(64 * (lengthBytes - 1) + low);
  }

  /** `case 2`: the byte above the low 4 bits. */
  method Case2(package: ByteVec, length: u32) returns (low: nat)
    modifies package
    ensures package.data == [length / 16 % 256] + old(package.data) && low == length % 16
  {
    package.PrependByte(length / 16 % 256);
    low := length % 16;
  }

  /** `case 3`: the byte above the low 12 bits, then fall through. */
  method Case3(package: ByteVec, length: u32) returns (low: nat)
    modifies package
    ensures package.data == [length / 16 % 256, length / 4096 % 256] + old(package.data)
    ensures low == length % 16
  {
    Masks(length);
    package.PrependByte(length / 4096 % 256);
    low := Case2(package, length % 4096);
  }

  /** `case 4`: the byte above the low 20 bits, then fall through. */
  method Case4(package: ByteVec, length: u32) returns (low: nat)
    modifies package
    ensures package.data == [length / 16 % 256, length / 4096 % 256, length / 1048576 % 256] + old(package.data)
    ensures low == length % 16
  {
    Masks(length);
    package.PrependByte(length / 1048576 % 256);
    low := Case3(package, length % 1048576);
  }

  /** Masking off the bits already written does not disturb the lower digits. */
  lemma Masks(v: nat)
    ensures v % 4096 / 16 % 256 == v / 16 % 256
    ensures v % 4096 % 16 == v % 16
    ensures v % 1048576 / 16 % 256 == v / 16 % 256
    ensures v % 1048576 % 16 == v % 16
    ensures v % 1048576 / 4096 % 256 == v / 4096 % 256
    ensures v % 1048576 % 4096 == v % 4096
    ensures v / 16 / 256 == v / 4096
    ensures v / 16 / 65536 == v / 1048576
  {
    var x := v / 16;
    var y := x / 256;
    var z := y / 256;
    var d, c, b := v % 16, x % 256, y % 256;
    assert v == 4096 * y + (16 * c + d);
    assert v == 1048576 * z + (4096 * b + 16 * c + d);
    assert v / 4096 == y && v % 4096 == 16 * c + d;
    assert v / 1048576 == z && v % 1048576 == 4096 * b + 16 * c + d;
    assert (16 * c + d) / 16 == c;
    assert (4096 * b + 16 * c + d) / 4096 == b;
    assert (4096 * b + 16 * c + d) / 16 == 256 * b + c;
  }

  /** Layout, digit by digit. */
  lemma LayoutDigits(w: nat, v: nat)
    requires 1 <= w <= 4
    ensures Layout(w, v) ==
            if w == 1 then [v % 256]
            else if w == 2 then [0x40 + v % 16, v / 16 % 256]
            else if w == 3 then [0x80 + v % 16, v / 16 % 256, v / 4096 % 256]
            else [0xC0 + v % 16, v / 16 % 256, v / 4096 % 256, v / 1048576 % 256]
  {
    LeUnfold(v / 16);
    Masks(v);
  }

  /** The two encoders agree on exactly the lengths for which `length + 3` does not wrap. */
  lemma EncodersAgree(len: u32, inclusive: bool)
    ensures CEncode(len, inclusive) == Encode(len, inclusive) <==> len < 0xFFFF_FFFD
  {
    CWidthIs(len);
    var value := Carried(len, inclusive);
    if len < 0xFFFF_FFFD {
      WrapOnce(value);
      LayoutDigits(4, 0);
      LayoutDigits(4, 0x1_0000_0000);
    } else {
      assert |CEncode(len, inclusive)| != |Encode(len, inclusive)|;
    }
  }

  lemma CWidthIs(len: u32)
    ensures len < 0xFFFF_FFFD ==> CWidth(len) == Width(len)
    ensures len >= 0xFFFF_FFFD ==> CWidth(len) < Width(len)
  {
    WrapOnce(len + 1);
    WrapOnce(len + 2);
    WrapOnce(len + 3);
  }

  lemma WrapOnce(x: nat)
    requires x < 0x2_0000_0000
    ensures Wrap32(x) == if x <= U32_MAX then x else x - 0x1_0000_0000
  {
  }

  // ----- decoding -----

  /** Reads a PkgLength: its value and how many bytes it took.  With more than one byte, bits 4
      and 5 of the lead byte must be zero. */
  function Decode(bs: seq<byte>): Option<(nat, nat)> {
    if bs == [] then None
    else
      var follow := bs[0] / 64;
      if follow == 0 then Some((bs[0], 1))
      else if bs[0] / 16 % 4 != 0 || |bs| < 1 + follow then None
      else Some((bs[0] % 16 + 16 * FromLe(bs[1..1 + follow]), 1 + follow))
  }

  /** Decoding gives back the length, plus the width itself when the length is inclusive:
      exactly as long as the carried value is below 2^28. */
  lemma RoundTrip(len: nat, inclusive: bool, rest: seq<byte>)
    ensures Decode(Encode(len, inclusive) + rest) == Some((Carried(len, inclusive), Width(len)))
            <==> Carried(len, inclusive) < 0x1000_0000
  {
    var w, value := Width(len), Carried(len, inclusive);
    var bs := Encode(len, inclusive) + rest;
    if w > 1 {
      assert bs[0] == 64 * (w - 1) + value % 16;
      assert bs[1..1 + (w - 1)] == Le(value / 16, w - 1);
      PowersOf256();
      FromLeBound(Le(value / 16, w - 1));
      if value < 0x1000_0000 {
        LeFits(value / 16, w - 1);
      }
    }
  }

  /** The inclusive width is the least one that can hold a length counting that width. */
  lemma WidthIsLeast(len: nat, w: nat)
    requires 1 <= w <= 4 && len + 4 <= Capacity(4)
    ensures len + w <= Capacity(w) <==> Width(len) <= w
  {
  }

  // ----- reading a package -----

  /** Reads an inclusive PkgLength and the content it delimits. */
  function Delimited(bs: seq<byte>): (r: Parsed<seq<byte>>)
    ensures r.Got? ==> |r.value| + |r.rest| < |bs|
  {
    match Decode(bs)
    case None => Fail
    case Some((value, w)) =>
      if w <= value <= |bs| then Got(bs[w..value], bs[value..]) else Fail
  }

  /** A package is read back whole, whatever follows it. */
  lemma DelimitedRoundTrip(content: seq<byte>, rest: seq<byte>)
    requires |content| + 4 < 0x1000_0000
    ensures Delimited(Encode(|content|, true) + content + rest) == Got(content, rest)
  {
    RoundTrip(|content|, true, content + rest);
    assert Encode(|content|, true) + content + rest == Encode(|content|, true) + (content + rest);
  }
}
