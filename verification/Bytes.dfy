/** Bytes, little-endian integers, byte sums and growable byte buffers: the vocabulary that
    both the C builder (GArray) and the Rust encoder (Vec<u8>) are written in. */
module Bytes {
  type byte = x: int | 0 <= x < 256
  type u16 = x: int | 0 <= x < 0x1_0000
  type u32 = x: int | 0 <= x < 0x1_0000_0000
  type u64 = x: int | 0 <= x < 0x1_0000_0000_0000_0000

  const U32_MAX: int := 0xFFFF_FFFF
  const U64_MAX: int := 0xFFFF_FFFF_FFFF_FFFF

  /** What 64-bit arithmetic makes of a number. */
  function Wrap64(x: int): u64 { x % 0x1_0000_0000_0000_0000 }

  lemma NoWrap(x: u64)
    ensures Wrap64(x) == x
  {
  }

  datatype Option<+T> = None | Some(value: T)

  /** The result of reading something off the front of a byte string. */
  datatype Parsed<+T> = Fail | Got(value: T, rest: seq<byte>)

  // ----- little-endian integers -----

  /** The low `n` bytes of `v`, least significant first. */
  function Le(v: nat, n: nat): (r: seq<byte>)
    ensures |r| == n
  {
    if n == 0 then [] else [v % 256] + Le(v / 256, n - 1)
  }

  /** The number a little-endian byte string stands for. */
  function FromLe(s: seq<byte>): nat {
    if s == [] then 0 else s[0] + 256 * FromLe(s[1..])
  }

  function Pow256(n: nat): (p: nat)
    ensures p > 0
  {
    if n == 0 then 1 else 256 * Pow256(n - 1)
  }

  /** The powers the formats use, as numerals. */
  lemma PowersOf256()
    ensures Pow256(1) == 0x100 && Pow256(2) == 0x1_0000 && Pow256(3) == 0x100_0000
    ensures Pow256(4) == 0x1_0000_0000 && Pow256(8) == 0x1_0000_0000_0000_0000
  {
    assert Pow256(4) == 256 * Pow256(3) == 65536 * Pow256(2);
    assert Pow256(8) == 256 * Pow256(7) == 65536 * Pow256(6);
    assert Pow256(6) == 256 * Pow256(5) == 65536 * Pow256(4);
  }

  /** Writing a number and reading it back keeps it modulo 256^n. */
  lemma {:induction false} LeRoundTrip(v: nat, n: nat)
    ensures FromLe(Le(v, n)) == v % Pow256(n)
  {
    if n > 0 {
      LeRoundTrip(v / 256, n - 1);
      assert Le(v, n)[1..] == Le(v / 256, n - 1);
      DigitSplit(v, Pow256(n - 1));
    }
  }

  lemma DigitSplit(v: nat, p: nat)
    requires p > 0
    ensures v % (256 * p) == v % 256 + 256 * (v / 256 % p)
  {
    var q, r := v / 256 / p, v / 256 % p;
    assert v / 256 == q * p + r;
    assert v == 256 * (q * p + r) + v % 256;
    assert v == q * (256 * p) + (256 * r + v % 256);
    assert 256 * r + v % 256 < 256 * p;
    ModUnique(v, 256 * p, q, 256 * r + v % 256);
  }

  lemma ModUnique(v: int, m: int, q: int, r: int)
    requires m > 0 && 0 <= r < m && v == q * m + r
    ensures v % m == r && v / m == q
  {
    DivisionUnique(m, v / m, v % m, q, r);
  }

  lemma DivisionUnique(m: int, q: int, r: int, q': int, r': int)
    requires 0 <= r < m && 0 <= r' < m && q * m + r == q' * m + r'
    ensures q == q' && r == r'
  {
    if q > q' {
      assert q * m - q' * m == (q - q') * m;
      MulAtLeast(q - q', m);
    } else if q < q' {
      assert q' * m - q * m == (q' - q) * m;
      MulAtLeast(q' - q, m);
    }
  }

  lemma MulAtLeast(d: int, m: int)
    requires d >= 1 && m > 0
    ensures d * m >= m
  {
  }

  /** A number that fits is read back unchanged. */
  lemma LeFits(v: nat, n: nat)
    requires v < Pow256(n)
    ensures FromLe(Le(v, n)) == v
  {
    LeRoundTrip(v, n);
  }

  lemma {:induction false} FromLeBound(s: seq<byte>)
    ensures FromLe(s) < Pow256(|s|)
  {
    if s != [] {
      FromLeBound(s[1..]);
    }
  }

  /** `v` without its low `n` bytes. */
  function High(v: nat, n: nat): nat {
    if n == 0 then v else High(v / 256, n - 1)
  }

  lemma High4(v: nat)
    ensures High(v, 4) == v / 0x1_0000_0000
  {
    assert High(v, 4) == High(v / 256, 3) == High(v / 256 / 256, 2);
    assert High(v / 256 / 256, 2) == High(v / 256 / 256 / 256, 1) == v / 256 / 256 / 256 / 256;
  }

  /** Writing the low part and the high part apart is writing the whole. */
  lemma {:induction false} LeSplit(v: nat, n: nat, m: nat)
    ensures Le(v, n + m) == Le(v, n) + Le(High(v, n), m)
  {
    if n > 0 {
      LeSplit(v / 256, n - 1, m);
      assert Le(v, n + m) == [v % 256] + (Le(v / 256, n - 1) + Le(High(v, n), m));
    }
  }

  // ----- byte sums -----

  /** The sum of a byte string; ACPI wants it to be 0 modulo 256 over a table. */
  function Sum(s: seq<byte>): nat {
    if s == [] then 0 else s[0] + Sum(s[1..])
  }

  lemma {:induction false} SumAppend(a: seq<byte>, b: seq<byte>)
    ensures Sum(a + b) == Sum(a) + Sum(b)
  {
    if a == [] {
      assert a + b == b;
    } else {
      assert (a + b)[1..] == a[1..] + b;
      SumAppend(a[1..], b);
    }
  }

  /** Changing one byte changes the sum by the difference. */
  lemma SumUpdate(s: seq<byte>, i: nat, b: byte)
    requires i < |s|
    ensures Sum(s[i := b]) == Sum(s) - s[i] + b
  {
    assert s == s[..i] + ([s[i]] + s[i + 1..]);
    assert s[i := b] == s[..i] + ([b] + s[i + 1..]);
    SumAppend(s[..i], [s[i]] + s[i + 1..]);
    SumAppend(s[..i], [b] + s[i + 1..]);
  }

  /** `n` copies of one byte. */
  function Fill(n: nat, b: byte): (r: seq<byte>)
    ensures |r| == n && forall i :: 0 <= i < n ==> r[i] == b
  {
    seq(n, _ => b)
  }

  /** The character codes of a text. */
  function Ascii(s: string): (r: seq<byte>)
    ensures |r| == |s| && forall i :: 0 <= i < |s| ==> r[i] == s[i] as int % 256
  {
    seq(|s|, i requires 0 <= i < |s| => s[i] as int % 256)
  }

  lemma PrefixSnoc<T>(s: seq<T>, i: nat)
    requires i < |s|
    ensures s[..i + 1] == s[..i] + [s[i]]
  {
  }

  lemma SliceOfSlice<T>(s: seq<T>, from: nat, to: nat, i: nat, j: nat)
    requires from <= to <= |s| && i <= j <= to - from
    ensures s[from..to][i..j] == s[from + i..from + j]
  {
    var a, b := s[from..to][i..j], s[from + i..from + j];
    forall k | 0 <= k < j - i
      ensures a[k] == b[k]
    {
      assert a[k] == s[from..to][i + k] == s[from + i + k];
    }
    assert a == b;
  }

  lemma SliceOfTail<T>(a: seq<T>, b: seq<T>, i: nat, j: nat)
    requires |a| <= i <= j <= |a| + |b|
    ensures (a + b)[i..j] == b[i - |a|..j - |a|]
  {
  }

  /** Something holds of an element of a concatenation when it holds of an element of either part. */
  lemma ExistsAppend<T(!new)>(xs: seq<T>, ys: seq<T>, p: T -> bool)
    ensures (exists i :: 0 <= i < |xs + ys| && p((xs + ys)[i])) <==>
            (exists i :: 0 <= i < |xs| && p(xs[i])) || exists i :: 0 <= i < |ys| && p(ys[i])
  {
    var all := xs + ys;
    forall i | 0 <= i < |xs| && p(xs[i])
      ensures exists k :: 0 <= k < |all| && p(all[k])
    {
      assert p(all[i]);
    }
    forall i | 0 <= i < |ys| && p(ys[i])
      ensures exists k :: 0 <= k < |all| && p(all[k])
    {
      assert p(all[|xs| + i]);
    }
  }

  /** A table signature or a creator id. */
  type Bytes4 = s: seq<byte> | |s| == 4 witness Fill(4, 0)

  // ----- growable buffers -----

  /** A growable byte buffer. */
  class ByteVec {
    var data: seq<byte>

    constructor ()
      ensures data == []
    {
      data := [];
    }

    method Push(b: byte)
      modifies this
      ensures data == old(data) + [b]
    {
      data := data + [b];
    }

    method Extend(s: seq<byte>)
      modifies this
      ensures data == old(data) + s
    {
      data := data + s;
    }

    method PrependByte(b: byte)
      modifies this
      ensures data == [b] + old(data)
    {
      data := [b] + data;
    }

    method PrependVals(s: seq<byte>)
      modifies this
      ensures data == s + old(data)
    {
      data := s + data;
    }

    /** build_append_int_noprefix: the low `size` bytes of `value`, one at a time. */
    method AppendIntNoPrefix(value: nat, size: nat)
      modifies this
      ensures data == old(data) + Le(value, size)
    {
      var v := value;
      for i := 0 to size
        invariant data + Le(v, size - i) == old(data) + Le(value, size)
      {
        Push(v % 256);
        v := v / 256;
      }
    }
  }
}
