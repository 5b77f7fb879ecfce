/** EISA identifiers: three letters and four hexadecimal digits packed into 32 bits.  aml_eisaid of
    aml-build.c takes any seven characters and always writes a DWord; EISAName of src/acpi/aml.rs checks
    them and writes the shortest integer. */
module Eisa {
  import opened Bytes
  import Terms

  // ----- bitwise or -----

  function Or(a: nat, b: nat): nat
    decreases a + b
  {
    if a == 0 && b == 0 then 0 else (if a % 2 == 1 || b % 2 == 1 then 1 else 0) + 2 * Or(a / 2, b / 2)
  }

  function Pow2(k: nat): (p: nat)
    ensures p > 0
  {
    if k == 0 then 1 else 2 * Pow2(k - 1)
  }

  lemma OrStep(a: nat, b: nat, p: nat, q: nat)
    requires p < 2 && q < 2
    ensures Or(2 * a + p, 2 * b + q) == 2 * Or(a, b) + if p == 1 || q == 1 then 1 else 0
  {
    assert (2 * a + p) / 2 == a && (2 * b + q) / 2 == b && (2 * a + p) % 2 == p && (2 * b + q) % 2 == q;
  }

  /** High and low bits are combined apart. */
  lemma {:induction false} OrSplit(a: nat, b: nat, lo: nat, lo': nat, k: nat)
    requires lo < Pow2(k) && lo' < Pow2(k)
    ensures Or(a * Pow2(k) + lo, b * Pow2(k) + lo') == Or(a, b) * Pow2(k) + Or(lo, lo') && Or(lo, lo') < Pow2(k)
  {
    if k == 0 {
      assert a * Pow2(k) == a && b * Pow2(k) == b && Or(a, b) * Pow2(k) == Or(a, b);
    } else {
      var m := Pow2(k - 1);
      hide Or;
      OrSplit(a, b, lo / 2, lo' / 2, k - 1);
      hide Pow2;
      OrDouble(a, b, lo, lo', m);
    }
  }

  lemma OrDouble(a: nat, b: nat, lo: nat, lo': nat, m: nat)
    requires Or(a * m + lo / 2, b * m + lo' / 2) == Or(a, b) * m + Or(lo / 2, lo' / 2) && Or(lo / 2, lo' / 2) < m
    ensures Or(a * (2 * m) + lo, b * (2 * m) + lo') == Or(a, b) * (2 * m) + Or(lo, lo') && Or(lo, lo') < 2 * m
  {
    hide Or;
    var p: nat, q: nat := lo % 2, lo' % 2;
    var r := if p == 1 || q == 1 then 1 else 0;
    Doubled(a, m, lo);
    Doubled(b, m, lo');
    OrStep(lo / 2, lo' / 2, p, q);
    OrStep(a * m + lo / 2, b * m + lo' / 2, p, q);
    assert 2 * (lo / 2) + p == lo && 2 * (lo' / 2) + q == lo';
    Twice(Or(a, b), m);
  }

  lemma Twice(a: nat, m: nat)
    ensures a * (2 * m) == 2 * (a * m)
  {
  }

  lemma Doubled(a: nat, m: nat, lo: nat)
    ensures a * (2 * m) + lo == 2 * (a * m + lo / 2) + lo % 2
  {
    Twice(a, m);
  }

  lemma {:induction false} OrZero(a: nat)
    ensures Or(a, 0) == a && Or(0, a) == a
  {
    if a > 0 {
      OrZero(a / 2);
    }
  }

  /** The same with the power as a numeral. */
  lemma OrAt(a: nat, b: nat, lo: nat, lo': nat, k: nat, m: nat)
    requires Pow2(k) == m && lo < m && lo' < m
    ensures Or(a * m + lo, b * m + lo') == Or(a, b) * m + Or(lo, lo') && Or(lo, lo') < m
  {
    OrSplit(a, b, lo, lo', k);
  }

  /** Low bits on one side only are kept. */
  lemma OrLow(a: nat, b: nat, lo: nat, k: nat, m: nat)
    requires Pow2(k) == m && lo < m
    ensures Or(a * m, b * m + lo) == Or(a, b) * m + lo
  {
    OrZero(lo);
    hide Or;
    OrAt(a, b, 0, lo, k, m);
  }

  lemma OrFits(a: nat, b: nat, k: nat)
    requires a < Pow2(k) && b < Pow2(k)
    ensures Or(a, b) < Pow2(k)
  {
    OrSplit(0, 0, a, b, k);
  }

  lemma Powers()
    ensures Pow2(4) == 16 && Pow2(5) == 32 && Pow2(8) == 0x100 && Pow2(12) == 0x1000 && Pow2(16) == 0x1_0000
    ensures Pow2(21) == 0x20_0000 && Pow2(26) == 0x400_0000 && Pow2(32) == 0x1_0000_0000
  {
    assert Pow2(8) == 16 * Pow2(4) && Pow2(12) == 16 * Pow2(8) && Pow2(16) == 16 * Pow2(12);
    assert Pow2(21) == 32 * Pow2(16) && Pow2(26) == 32 * Pow2(21) && Pow2(32) == 64 * Pow2(26);
  }

  /** The second bit is already there. */
  lemma OrTwo(n: nat, w: nat)
    requires w < 2
    ensures Or(n, 2 * w) == n <==> (w == 1 ==> n / 2 % 2 == 1)
  {
    OrZero(n);
    OrZero(n / 4);
    if w == 1 {
      var p: nat, q: nat := n % 2, n / 2 % 2;
      OrStep(n / 4, 0, q, 1);
      OrStep(n / 2, 1, p, 0);
    }
  }

  // ----- the two encoders -----

  /** A char is signed. */
  function Signed(b: byte): int { if b < 128 then b else b - 256 }

  /** Hex2Digit */
  function Hex2Digit(b: byte): byte {
    if Signed(b) >= 0x41 then (Signed(b) - 0x41 + 10) % 256 else (Signed(b) - 0x30) % 256
  }

  /** A shift of a 32-bit int that wraps around. */
  function Shl(v: int, k: nat): u32 { v * Pow2(k) % 0x1_0000_0000 }

  function Or32(a: u32, b: u32): u32 {
    Powers();
    OrFits(a, b, 32);
    Or(a, b)
  }

  /** Seven fields put together in the order of the source. */
  function Joined(a: int, b: int, c: int, d: byte, e: byte, f: byte, g: byte): u32 {
    Or32(Or32(Or32(Or32(Or32(Or32(Shl(a, 26), Shl(b, 21)), Shl(c, 16)), Shl(d, 12)), Shl(e, 8)), Shl(f, 4)), g)
  }

  /** What aml_eisaid makes of any seven characters. */
  function CId(s: seq<byte>): u32
    requires |s| == 7
  {
    Joined(Signed(s[0]) - 0x40, Signed(s[1]) - 0x40, Signed(s[2]) - 0x40,
           Hex2Digit(s[3]), Hex2Digit(s[4]), Hex2Digit(s[5]), Hex2Digit(s[6]))
  }

  /** aml_eisaid */
  method AmlEisaid(s: seq<byte>, buf: ByteVec)
    requires |s| == 7
    modifies buf
    ensures buf.data == old(buf.data) + [0x0C] + Le(Swap(CId(s)), 4)
  {
    var id := CId(s);
    buf.Push(0x0C);
    buf.AppendIntNoPrefix(Swap(id), 4);
  }

  predicate LowerDigit(b: byte) { 0x61 <= b <= 0x66 }

  predicate HexDigit(b: byte) { 0x30 <= b <= 0x39 || 0x41 <= b <= 0x46 }

  /** What EISAName::new accepts: characters from 0x40 on, and hexadecimal digits of either case.  A
      character outside ASCII leaves too few characters. */
  predicate Accepted(s: seq<byte>) {
    |s| == 7 && (forall i :: 0 <= i < 3 ==> 0x40 <= s[i] < 0x80)
    && forall i :: 3 <= i < 7 ==> HexDigit(s[i]) || LowerDigit(s[i])
  }

  /** to_digit(16) */
  function Digit(b: byte): (d: nat)
    requires HexDigit(b) || LowerDigit(b)
    ensures d < 16
  {
    if b >= 0x61 then b - 0x61 + 10 else if b >= 0x41 then b - 0x41 + 10 else b - 0x30
  }

  /** The identifier of EISAName. */
  function RustId(s: seq<byte>): u32
    requires Accepted(s)
  {
    Joined(s[0] - 0x40, s[1] - 0x40, s[2] - 0x40, Digit(s[3]), Digit(s[4]), Digit(s[5]), Digit(s[6]))
  }

  /** What EISAName encodes. */
  function EisaName(s: seq<byte>): Terms.Term
    requires Accepted(s)
  {
    Terms.Int(Swap(RustId(s)))
  }

  /** bswap32, swap_bytes */
  function Swap(v: u32): u32 {
    v % 0x100 * 0x100_0000 + v / 0x100 % 0x100 * 0x1_0000 + v / 0x1_0000 % 0x100 * 0x100 + v / 0x100_0000
  }

  // ----- where they agree -----

  /** The three letters, which may overlap. */
  function Letters(a: nat, b: nat, c: nat): nat { Or(Or(a * 0x400, b * 0x20), c) }

  lemma ShlSmall(v: nat, k: nat, m: nat)
    requires Pow2(k) == m && v * m < 0x1_0000_0000
    ensures Shl(v, k) == v * m
  {
    ModUnique(v * m, 0x1_0000_0000, 0, v * m);
  }

  lemma LettersPlaced(a: nat, b: nat, c: nat)
    requires a < 64 && b < 64 && c < 64
    ensures Shl(a, 26) == a * 0x400_0000 && Shl(b, 21) == b * 0x20_0000 && Shl(c, 16) == c * 0x1_0000
  {
    Powers();
    hide Pow2, Shl;
    ShlSmall(a, 26, 0x400_0000);
    ShlSmall(b, 21, 0x20_0000);
    ShlSmall(c, 16, 0x1_0000);
  }

  lemma LettersJoined(a: nat, b: nat, c: nat)
    requires a < 64 && b < 64 && c < 64
    ensures Or32(Or32(Shl(a, 26), Shl(b, 21)), Shl(c, 16)) == Letters(a, b, c) * 0x1_0000
  {
    Powers();
    hide Or, Pow2, Shl;
    LettersPlaced(a, b, c);
    var x, y := a * 0x400, b * 0x20;
    assert a * 0x400_0000 == x * 0x1_0000 && b * 0x20_0000 == y * 0x1_0000;
    OrLow(x, y, 0, 16, 0x1_0000);
    OrLow(Or(x, y), c, 0, 16, 0x1_0000);
  }

  /** One more digit, which may come with a bit that belongs to the digit before it. */
  lemma DigitJoined(high: nat, before: nat, d: nat, w: nat, k: nat, m: nat)
    requires before < 16 && d < 16 && w < 2 && m > 0 && Pow2(k + 4) == 16 * m
    ensures Or((high * 16 + before) * (16 * m), (32 * w + d) * m) ==
            (high * 16 + Or(before, 2 * w)) * (16 * m) + d * m
    ensures Or(before, 2 * w) < 16
  {
    Scaled(w, d, m);
    StrayBit(high, before, w);
    hide Or, Pow2;
    OrLow(high * 16 + before, 2 * w, d * m, k + 4, 16 * m);
  }

  lemma StrayBit(high: nat, before: nat, w: nat)
    requires before < 16 && w < 2
    ensures Or(high * 16 + before, 2 * w) == high * 16 + Or(before, 2 * w) && Or(before, 2 * w) < 16
  {
    Powers();
    OrZero(high);
    hide Or, Pow2;
    OrAt(high, 0, before, 2 * w, 4, 16);
  }

  lemma Scaled(w: nat, d: nat, m: nat)
    requires d < 16 && m > 0
    ensures (32 * w + d) * m == 2 * w * (16 * m) + d * m && d * m < 16 * m
  {
  }

  lemma FirstDigit(letters: nat, d: nat, w: nat)
    requires d < 16
    ensures Or(letters * 0x1_0000, (32 * w + d) * 0x1000) == Or(letters, 2 * w) * 0x1_0000 + d * 0x1000
  {
    Powers();
    hide Or, Pow2;
    OrLow(letters, 2 * w, d * 0x1000, 16, 0x1_0000);
  }

  /** A field of up to eight bits in its place. */
  lemma Placed(v: nat)
    requires v < 256
    ensures Shl(v, 12) == v * 0x1000 && Shl(v, 8) == v * 0x100 && Shl(v, 4) == v * 0x10
  {
    Powers();
    hide Pow2;
    ShlSmall(v, 12, 0x1000);
    ShlSmall(v, 8, 0x100);
    ShlSmall(v, 4, 0x10);
  }

  /** The digits put below the letters, each with a possible stray bit. */
  lemma DigitsJoined(letters: nat, d: nat, e: nat, f: nat, g: nat, w: nat, x: nat, y: nat, z: nat)
    requires d < 16 && e < 16 && f < 16 && g < 16 && w < 2 && x < 2 && y < 2 && z < 2
    ensures Or(d, 2 * x) < 16 && Or(e, 2 * y) < 16 && Or(f, 2 * z) < 16
    ensures var r := Or(letters * 0x1_0000, (32 * w + d) * 0x1000);
            Or(Or(Or(r, (32 * x + e) * 0x100), (32 * y + f) * 0x10), 32 * z + g) ==
            Or(letters, 2 * w) * 0x1_0000 + Or(d, 2 * x) * 0x1000 + Or(e, 2 * y) * 0x100 + Or(f, 2 * z) * 0x10 + g
  {
    Powers();
    hide Or, Pow2;
    var h := Or(letters, 2 * w);
    FirstDigit(letters, d, w);
    DigitJoined(h, d, e, x, 8, 0x100);
    var h' := h * 16 + Or(d, 2 * x);
    DigitJoined(h', e, f, y, 4, 0x10);
    var h'' := h' * 16 + Or(e, 2 * y);
    DigitJoined(h'', f, g, z, 0, 1);
  }

  /** All fields. */
  lemma JoinedIs(a: nat, b: nat, c: nat, d: nat, e: nat, f: nat, g: nat, w: nat, x: nat, y: nat, z: nat)
    requires a < 64 && b < 64 && c < 64 && d < 16 && e < 16 && f < 16 && g < 16 && w < 2 && x < 2 && y < 2 && z < 2
    ensures Joined(a, b, c, 32 * w + d, 32 * x + e, 32 * y + f, 32 * z + g) ==
            Or(Letters(a, b, c), 2 * w) * 0x1_0000 + Or(d, 2 * x) * 0x1000 + Or(e, 2 * y) * 0x100
            + Or(f, 2 * z) * 0x10 + g
    ensures Or(d, 2 * x) < 16 && Or(e, 2 * y) < 16 && Or(f, 2 * z) < 16
  {
    hide Or, Pow2, Shl, Letters;
    LettersJoined(a, b, c);
    Placed(32 * w + d);
    Placed(32 * x + e);
    Placed(32 * y + f);
    DigitsJoined(Letters(a, b, c), d, e, f, g, w, x, y, z);
  }

  function Stray(b: byte): (w: nat)
    ensures w < 2
  {
    if LowerDigit(b) then 1 else 0
  }

  lemma HexDigits(b: byte)
    requires HexDigit(b) || LowerDigit(b)
    ensures Hex2Digit(b) == 32 * Stray(b) + Digit(b)
  {
  }

  lemma SecondBit(m: nat, c: nat)
    ensures (m * 32 + c % 32) / 2 % 2 == c / 2 % 2
  {
    var q, r := c / 32, c % 32;
    HalfOf(16 * m, r);
    HalfOf(16 * q, r);
    HalfOf(8 * m, r / 2);
    HalfOf(8 * q, r / 2);
    assert c == q * 32 + r;
  }

  lemma HalfOf(n: nat, r: nat)
    ensures (2 * n + r) / 2 == n + r / 2 && (2 * n + r) % 2 == r % 2
  {
  }

  lemma LettersLow(a: nat, b: nat, q: nat, r: nat)
    requires r < 32
    ensures Letters(a, b, q * 32 + r) == Or(Or(a * 0x20, b), q) * 32 + r
  {
    Powers();
    hide Or, Pow2;
    var x := a * 0x20;
    assert a * 0x400 == x * 0x20;
    OrLow(x, b, 0, 5, 0x20);
    OrLow(Or(x, b), q, r, 5, 0x20);
  }

  /** Second bit of the letters. */
  lemma LettersBit(a: nat, b: nat, c: nat)
    ensures Letters(a, b, c) / 2 % 2 == c / 2 % 2
  {
    hide Or, Letters;
    var q, r := c / 32, c % 32;
    assert c == q * 32 + r;
    LettersLow(a, b, q, r);
    SecondBit(Or(Or(a * 0x20, b), q), c);
  }

  /** A digit a to f of lower case is harmless in C where the character before it has the bit that
      Hex2Digit leaves in. */
  predicate Harmless(s: seq<byte>)
    requires Accepted(s)
  {
    (LowerDigit(s[3]) ==> (s[2] - 0x40) / 2 % 2 == 1) && (LowerDigit(s[4]) ==> Digit(s[3]) / 2 % 2 == 1)
    && (LowerDigit(s[5]) ==> Digit(s[4]) / 2 % 2 == 1) && (LowerDigit(s[6]) ==> Digit(s[5]) / 2 % 2 == 1)
  }

  /** C reads each digit with its stray bit. */
  lemma CIdJoined(s: seq<byte>)
    requires Accepted(s)
    ensures CId(s) == Joined(s[0] - 0x40, s[1] - 0x40, s[2] - 0x40, 32 * Stray(s[3]) + Digit(s[3]),
                             32 * Stray(s[4]) + Digit(s[4]), 32 * Stray(s[5]) + Digit(s[5]),
                             32 * Stray(s[6]) + Digit(s[6]))
  {
    hide Joined, Digit, Hex2Digit, Stray;
    HexDigits(s[3]);
    HexDigits(s[4]);
    HexDigits(s[5]);
    HexDigits(s[6]);
  }

  lemma CIdIs(s: seq<byte>)
    requires Accepted(s)
    ensures var d, e, f := Or(Digit(s[3]), 2 * Stray(s[4])), Or(Digit(s[4]), 2 * Stray(s[5])),
                           Or(Digit(s[5]), 2 * Stray(s[6]));
            d < 16 && e < 16 && f < 16
            && CId(s) == Or(Letters(s[0] - 0x40, s[1] - 0x40, s[2] - 0x40), 2 * Stray(s[3])) * 0x1_0000
                         + d * 0x1000 + e * 0x100 + f * 0x10 + Digit(s[6])
  {
    hide CId, Joined, Or, Letters, Digit, Stray;
    CIdJoined(s);
    JoinedIs(s[0] - 0x40, s[1] - 0x40, s[2] - 0x40, Digit(s[3]), Digit(s[4]), Digit(s[5]), Digit(s[6]),
             Stray(s[3]), Stray(s[4]), Stray(s[5]), Stray(s[6]));
  }

  lemma SameId(s: seq<byte>)
    requires Accepted(s)
    ensures CId(s) == RustId(s) <==> Harmless(s)
  {
    var a: nat, b: nat, c: nat := s[0] - 0x40, s[1] - 0x40, s[2] - 0x40;
    hide CId, RustId, Or, Letters, Digit;
    CIdIs(s);
    RustIdIs(s);
    LettersBit(a, b, c);
    var h, d, e, f, g := Letters(a, b, c), Digit(s[3]), Digit(s[4]), Digit(s[5]), Digit(s[6]);
    var w, x, y, z := Stray(s[3]), Stray(s[4]), Stray(s[5]), Stray(s[6]);
    OrTwo(h, w);
    OrTwo(d, x);
    OrTwo(e, y);
    OrTwo(f, z);
    SameDigits(Or(h, 2 * w), Or(d, 2 * x), Or(e, 2 * y), Or(f, 2 * z), h, d, e, f, g);
  }

  lemma SameDigits(h: nat, d: nat, e: nat, f: nat, h': nat, d': nat, e': nat, f': nat, g: nat)
    requires d < 16 && e < 16 && f < 16 && d' < 16 && e' < 16 && f' < 16 && g < 16
    ensures h * 0x1_0000 + d * 0x1000 + e * 0x100 + f * 0x10 + g
            == h' * 0x1_0000 + d' * 0x1000 + e' * 0x100 + f' * 0x10 + g
            <==> h == h' && d == d' && e == e' && f == f'
  {
  }

  // ----- identifiers as the standard has them -----

  predicate Letter(b: byte) { 0x41 <= b <= 0x5A }

  /** UUUNNNN, with capital letters. */
  predicate Legal(s: seq<byte>) {
    |s| == 7 && Letter(s[0]) && Letter(s[1]) && Letter(s[2])
    && HexDigit(s[3]) && HexDigit(s[4]) && HexDigit(s[5]) && HexDigit(s[6])
  }

  /** The fields do not overlap, so `|` adds them. */
  function Packed(s: seq<byte>): (id: u32)
    requires Legal(s)
  {
    (s[0] - 0x40) * 0x400_0000 + (s[1] - 0x40) * 0x20_0000 + (s[2] - 0x40) * 0x1_0000
    + Digit(s[3]) * 0x1000 + Digit(s[4]) * 0x100 + Digit(s[5]) * 0x10 + Digit(s[6])
  }

  lemma LettersAdd(a: nat, b: nat, c: nat)
    requires b < 32 && c < 32
    ensures Letters(a, b, c) == a * 0x400 + b * 0x20 + c
  {
    Powers();
    OrZero(a);
    OrZero(a * 0x20 + b);
    hide Or, Pow2;
    LettersLow(a, b, 0, c);
    OrLow(a, 0, b, 5, 0x20);
  }

  lemma NoStray(a: nat, b: nat, c: nat, d: nat, e: nat, f: nat, g: nat)
    requires a < 64 && b < 64 && c < 64 && d < 16 && e < 16 && f < 16 && g < 16
    ensures Joined(a, b, c, d, e, f, g) == Letters(a, b, c) * 0x1_0000 + d * 0x1000 + e * 0x100 + f * 0x10 + g
  {
    OrZero(Letters(a, b, c));
    OrZero(d);
    OrZero(e);
    OrZero(f);
    hide Joined, Or, Letters;
    JoinedIs(a, b, c, d, e, f, g, 0, 0, 0, 0);
  }

  lemma RustIdIs(s: seq<byte>)
    requires Accepted(s)
    ensures RustId(s) == Letters(s[0] - 0x40, s[1] - 0x40, s[2] - 0x40) * 0x1_0000
                         + Digit(s[3]) * 0x1000 + Digit(s[4]) * 0x100 + Digit(s[5]) * 0x10 + Digit(s[6])
  {
    hide Joined, Digit, Letters;
    NoStray(s[0] - 0x40, s[1] - 0x40, s[2] - 0x40, Digit(s[3]), Digit(s[4]), Digit(s[5]), Digit(s[6]));
  }

  /** Both sides compute the packed identifier. */
  lemma BothPack(s: seq<byte>)
    requires Legal(s)
    ensures Accepted(s) && CId(s) == Packed(s) && RustId(s) == Packed(s)
  {
    hide CId, RustId, Letters, Digit;
    SameId(s);
    RustIdIs(s);
    LettersAdd(s[0] - 0x40, s[1] - 0x40, s[2] - 0x40);
  }

  /** The low 16 bits of the identifier are the four digits. */
  lemma LowDigits(s: seq<byte>)
    requires Accepted(s)
    ensures RustId(s) % 0x1_0000 == 0 <==> s[3..] == [0x30, 0x30, 0x30, 0x30]
  {
    hide RustId, Letters;
    RustIdIs(s);
    var low := Digit(s[3]) * 0x1000 + Digit(s[4]) * 0x100 + Digit(s[5]) * 0x10 + Digit(s[6]);
    assert RustId(s) % 0x1_0000 == low;
    assert s[3..] == [s[3], s[4], s[5], s[6]];
  }

  lemma SwapSmall(v: u32)
    ensures Swap(v) <= 0xFFFF <==> v % 0x1_0000 == 0
  {
    var a, b := v % 0x100, v / 0x100 % 0x100;
    assert v % 0x1_0000 == b * 0x100 + a;
    assert Swap(v) == a * 0x100_0000 + b * 0x1_0000 + (v / 0x1_0000 % 0x100 * 0x100 + v / 0x100_0000);
  }

  lemma LeadByte(v: u64)
    ensures Terms.EncodeInt(v) == [0x0C] + Le(v, 4) <==> 0xFFFF < v <= 0xFFFF_FFFF
  {
    hide Le;
    if v <= 0xFFFF || v > 0xFFFF_FFFF {
      assert Terms.EncodeInt(v)[0] != 0x0C;
      assert ([0x0C] + Le(v, 4))[0] == 0x0C;
    }
  }

  /** On every name the Rust side accepts, both write the same bytes exactly when the four digits are
      not all zero (with zeros the Rust side writes a shorter integer of the same value) and no digit of
      lower case leaves a stray bit on the C side. */
  lemma EisaAgrees(s: seq<byte>)
    requires Accepted(s)
    ensures Terms.Encode(EisaName(s)) == [0x0C] + Le(Swap(CId(s)), 4) <==>
            s[3..] != [0x30, 0x30, 0x30, 0x30] && Harmless(s)
  {
    hide Swap, CId, RustId, Le, Harmless;
    LowDigits(s);
    SwapSmall(RustId(s));
    LeadByte(Swap(RustId(s)));
    SameId(s);
    if Terms.Encode(EisaName(s)) == [0x0C] + Le(Swap(CId(s)), 4) {
      LongInt(Swap(RustId(s)), Swap(CId(s)));
      SwapTwice(RustId(s));
      SwapTwice(CId(s));
    }
  }

  /** An integer that starts with the DWord prefix and ends like this is this one. */
  lemma LongInt(v: u32, w: u32)
    requires Terms.EncodeInt(v) == [0x0C] + Le(w, 4)
    ensures v == w && Terms.EncodeInt(v) == [0x0C] + Le(v, 4)
  {
    hide Le;
    assert ([0x0C] + Le(w, 4))[0] == 0x0C;
    assert Terms.EncodeInt(v) == [0x0C] + Le(v, 4);
    assert ([0x0C] + Le(v, 4))[1..] == Le(v, 4) && ([0x0C] + Le(w, 4))[1..] == Le(w, 4);
    PowersOf256();
    LeFits(v, 4);
    LeFits(w, 4);
  }

  /** "PNP0a03": C sets a bit in the digit before, Rust does not. */
  lemma LowerCaseDiffers()
    ensures var s: seq<byte> := [0x50, 0x4E, 0x50, 0x30, 0x61, 0x30, 0x33];
            Accepted(s) && CId(s) != RustId(s)
  {
    var s: seq<byte> := [0x50, 0x4E, 0x50, 0x30, 0x61, 0x30, 0x33];
    assert Accepted(s) && LowerDigit(s[4]) && Digit(s[3]) == 0;
    hide CId, RustId, Accepted;
    SameId(s);
  }

  // ----- reading an identifier -----

  function Character(d: nat): byte
    requires d < 16
  {
    if d < 10 then 0x30 + d else 0x41 + d - 10
  }

  /** The name a packed identifier stands for (section 19.6.36 of ACPI 5.0). */
  function Unpack(id: nat): seq<byte> {
    [(0x40 + id / 0x400_0000 % 32), (0x40 + id / 0x20_0000 % 32), (0x40 + id / 0x1_0000 % 32),
     Character(id / 0x1000 % 16), Character(id / 0x100 % 16), Character(id / 0x10 % 16), Character(id % 16)]
  }

  /** The bytes of a number given by its bytes. */
  lemma BytesOf(a: byte, b: byte, c: byte, d: byte)
    ensures var w: int := a * 0x100_0000 + b * 0x1_0000 + c * 0x100 + d;
            w % 0x100 == d && w / 0x100 % 0x100 == c && w / 0x1_0000 % 0x100 == b && w / 0x100_0000 == a
  {
    var a', b', c', d': int := a, b, c, d;
    var w := a' * 0x100_0000 + b' * 0x1_0000 + c' * 0x100 + d';
    ModUnique(w, 0x100, a' * 0x1_0000 + b' * 0x100 + c', d');
    ModUnique(a' * 0x1_0000 + b' * 0x100 + c', 0x100, a' * 0x100 + b', c');
    ModUnique(w, 0x1_0000, a' * 0x100 + b', c' * 0x100 + d');
    ModUnique(a' * 0x100 + b', 0x100, a', b');
    ModUnique(w, 0x100_0000, a', b' * 0x1_0000 + c' * 0x100 + d');
  }

  /** A number is made of its bytes. */
  lemma MadeOf(v: u32)
    ensures v / 0x100_0000 < 0x100
    ensures v == v / 0x100_0000 * 0x100_0000 + v / 0x1_0000 % 0x100 * 0x1_0000 + v / 0x100 % 0x100 * 0x100 + v % 0x100
  {
  }

  /** Swapping twice changes nothing. */
  lemma SwapTwice(v: u32)
    ensures Swap(Swap(v)) == v
  {
    var a: byte, b: byte, c: byte, d: byte := v % 0x100, v / 0x100 % 0x100, v / 0x1_0000 % 0x100, v / 0x100_0000;
    MadeOf(v);
    BytesOf(a, b, c, d);
    assert Swap(v) == a * 0x100_0000 + b * 0x1_0000 + c * 0x100 + d;
  }

  lemma CharacterOfDigit(b: byte)
    requires HexDigit(b)
    ensures Character(Digit(b)) == b
  {
  }

  /** The identifier, digit by digit. */
  lemma PackedIs(s: seq<byte>)
    requires Legal(s)
    ensures var a: int, b: int, c: int := s[0] - 0x40, s[1] - 0x40, s[2] - 0x40;
            Packed(s) == ((((a * 32 + b) * 32 + c) * 16 + Digit(s[3])) * 16 + Digit(s[4])) * 256
                         + Digit(s[5]) * 16 + Digit(s[6])
  {
    hide Digit;
  }

  lemma UnpackPacked(s: seq<byte>)
    requires Legal(s)
    ensures Unpack(Packed(s)) == s
  {
    hide Packed, Digit, Character;
    PackedIs(s);
    FieldsOf(s[0] - 0x40, s[1] - 0x40, s[2] - 0x40, Digit(s[3]), Digit(s[4]), Digit(s[5]), Digit(s[6]));
    CharacterOfDigit(s[3]);
    CharacterOfDigit(s[4]);
    CharacterOfDigit(s[5]);
    CharacterOfDigit(s[6]);
    var r := Unpack(Packed(s));
    assert r[0] == s[0] && r[1] == s[1] && r[2] == s[2] && r[3] == s[3] && r[4] == s[4] && r[5] == s[5] && r[6] == s[6];
  }

  lemma FieldsOf(a: int, b: int, c: int, e: int, f: int, g: int, h: int)
    requires 0 <= a < 32 && 0 <= b < 32 && 0 <= c < 32
    requires 0 <= e < 16 && 0 <= f < 16 && 0 <= g < 16 && 0 <= h < 16
    ensures var id := ((((a * 32 + b) * 32 + c) * 16 + e) * 16 + f) * 256 + g * 16 + h;
            id / 0x400_0000 % 32 == a && id / 0x20_0000 % 32 == b && id / 0x1_0000 % 32 == c
            && id / 0x1000 % 16 == e && id / 0x100 % 16 == f && id / 0x10 % 16 == g && id % 16 == h
  {
    var id := ((((a * 32 + b) * 32 + c) * 16 + e) * 16 + f) * 256 + g * 16 + h;
    var low := e * 0x1000 + f * 0x100 + g * 0x10 + h;
    ModUnique(id, 0x400_0000, a, b * 0x20_0000 + c * 0x1_0000 + low);
    ModUnique(id, 0x20_0000, a * 32 + b, c * 0x1_0000 + low);
    ModUnique(a * 32 + b, 32, a, b);
    ModUnique(id, 0x1_0000, (a * 32 + b) * 32 + c, low);
    ModUnique((a * 32 + b) * 32 + c, 32, a * 32 + b, c);
    var top := ((a * 32 + b) * 32 + c) * 16 + e;
    ModUnique(id, 0x1000, top, f * 0x100 + g * 0x10 + h);
    ModUnique(top, 16, (a * 32 + b) * 32 + c, e);
    ModUnique(id, 0x100, top * 16 + f, g * 0x10 + h);
    ModUnique(top * 16 + f, 16, top, f);
    ModUnique(id, 0x10, (top * 16 + f) * 16 + g, h);
    ModUnique((top * 16 + f) * 16 + g, 16, top * 16 + f, g);
  }

  /** The most significant byte comes first. */
  lemma BigEndian(v: u32)
    ensures Le(Swap(v), 4) == [v / 0x100_0000, v / 0x1_0000 % 0x100, v / 0x100 % 0x100, v % 0x100]
  {
    var a: byte, b: byte, c: byte, d: byte := v % 0x100, v / 0x100 % 0x100, v / 0x1_0000 % 0x100, v / 0x100_0000;
    MadeOf(v);
    BytesOf(a, b, c, d);
    LeOfBytes(a, b, c, d);
  }

  lemma LeOfBytes(a: byte, b: byte, c: byte, d: byte)
    ensures Le(a * 0x100_0000 + b * 0x1_0000 + c * 0x100 + d, 4) == [d, c, b, a]
  {
    var a', b', c', d': int := a, b, c, d;
    var w := a' * 0x100_0000 + b' * 0x1_0000 + c' * 0x100 + d';
    ModUnique(w, 0x100, a' * 0x1_0000 + b' * 0x100 + c', d');
    ModUnique(a' * 0x1_0000 + b' * 0x100 + c', 0x100, a' * 0x100 + b', c');
    ModUnique(a' * 0x100 + b', 0x100, a', b');
    ModUnique(a', 0x100, 0, a');
    assert Le(w, 4) == [d'] + Le(a' * 0x1_0000 + b' * 0x100 + c', 3);
    assert Le(a' * 0x1_0000 + b' * 0x100 + c', 3) == [c'] + Le(a' * 0x100 + b', 2);
    assert Le(a' * 0x100 + b', 2) == [b'] + Le(a', 1);
    assert Le(a', 1) == [a'] + Le(a' / 0x100, 0);
  }

  lemma RootBridgePacked(s: seq<byte>)
    requires s == [0x50, 0x4E, 0x50, 0x30, 0x41, 0x30, 0x33]
    ensures Legal(s) && Packed(s) == 0x41D0_0A03 && s == Ascii("PNP0A03")
  {
  }

  lemma RootBridgeBytes()
    ensures Le(Swap(0x41D0_0A03), 4) == [0x41, 0xD0, 0x0A, 0x03]
  {
    hide Swap, Le;
    BigEndian(0x41D0_0A03);
  }

  /** The identifier of a PCI root bridge is 0x030AD041. */
  lemma RootBridge()
    ensures Legal(Ascii("PNP0A03")) && Le(Swap(Packed(Ascii("PNP0A03"))), 4) == [0x41, 0xD0, 0x0A, 0x03]
  {
    hide Packed, Legal, Swap, Le;
    RootBridgePacked([0x50, 0x4E, 0x50, 0x30, 0x41, 0x30, 0x33]);
    RootBridgeBytes();
  }

  /** Reading back the DWord of either side gives the name. */
  lemma EisaRoundTrip(s: seq<byte>)
    requires Legal(s)
    ensures FromLe(Le(Swap(Packed(s)), 4)) == Swap(Packed(s)) && Unpack(Swap(Swap(Packed(s)))) == s
  {
    hide Swap, Packed, Unpack, Le, FromLe;
    PowersOf256();
    LeFits(Swap(Packed(s)), 4);
    SwapTwice(Packed(s));
    UnpackPacked(s);
  }
}
