/** Searching memory one longword at a time (strchrnul.c, rawmemchr.c), for any power-of-two word
    size from four bytes up and for both byte orders. */
module WordSearch {
  import opened Machine

  // ----- Words as bytes

  /** The value of a word, given its bytes from the least significant one up. */
  function Value(bytes: seq<Byte>): (v: nat)
    ensures v < Pow2(8 * |bytes|)
  {
    if bytes == [] then 0 else
      PowByte(|bytes| - 1);
      bytes[0] as int + 256 * Value(bytes[1..])
  }

  lemma PowByte(n: nat)
    ensures Pow2(8 * n + 8) == 256 * Pow2(8 * n)
  {
    Pow2Sum(8, 8 * n);
    assert Pow2(8) == 256;
  }

  lemma {:induction false} Pow2Sum(a: nat, b: nat)
    ensures Pow2(a + b) == Pow2(a) * Pow2(b)
  {
    if a > 0 { Pow2Sum(a - 1, b); }
  }

  /** The word with byte c in every one of its n bytes. */
  function Repeat(c: Byte, n: nat): (v: nat)
    ensures v < Pow2(8 * n)
  {
    if n == 0 then 0 else
      PowByte(n - 1);
      c as int + 256 * Repeat(c, n - 1)
  }

  lemma MulAssoc(a: nat, b: nat, c: nat)
    ensures (a * b) * c == a * (b * c)
  {}

  lemma {:induction false} RepeatTwice(c: Byte, n: nat, m: nat)
    ensures Repeat(c, n + m) == Repeat(c, n) + Pow2(8 * n) * Repeat(c, m)
  {
    if n > 0 {
      var p := Pow2(8 * (n - 1));
      assert Pow2(8 * n) == 256 * p by { PowByte(n - 1); }
      MulAssoc(256, p, Repeat(c, m));
      RepeatTwice(c, n - 1, m);
    }
  }

  lemma {:induction false} RepeatTop(n: nat)
    ensures 128 * Repeat(1, n) == Repeat(128, n)
  {
    if n > 0 { RepeatTop(n - 1); }
  }

  // ----- Operations on words of `width` bits

  function Not(a: nat, width: nat): (r: nat)
    requires a < Pow2(width)
    ensures r < Pow2(width)
  {
    Pow2(width) - 1 - a
  }

  function Sub(a: nat, b: nat, width: nat): (r: nat)
    ensures r < Pow2(width)
  {
    (a - b) % Pow2(width)
  }

  function Shl(a: nat, k: nat, width: nat): (r: nat)
    ensures r < Pow2(width)
  {
    a * Pow2(k) % Pow2(width)
  }

  function And(a: nat, b: nat, width: nat): (r: nat) ensures r < Pow2(width) { Bitwise(AND, a, b, width) }
  function Or(a: nat, b: nat, width: nat): (r: nat) ensures r < Pow2(width) { Bitwise(OR, a, b, width) }
  function Xor(a: nat, b: nat, width: nat): (r: nat) ensures r < Pow2(width) { Bitwise(XOR, a, b, width) }

  /** A bitwise operation works on low and high bits apart. */
  lemma {:induction false} Apart(op: AluOp, k: nat, lo: nat, hi: nat, lo': nat, hi': nat, width: nat)
    requires lo < Pow2(k) && lo' < Pow2(k)
    ensures Bitwise(op, lo + Pow2(k) * hi, lo' + Pow2(k) * hi', k + width)
         == Bitwise(op, lo, lo', k) + Pow2(k) * Bitwise(op, hi, hi', width)
  {
    if k > 0 {
      Halve(k, lo, hi);
      Halve(k, lo', hi');
      Apart(op, k - 1, lo / 2, hi, lo' / 2, hi', width);
      Double(k, Bitwise(op, hi, hi', width));
    }
  }

  lemma Double(k: nat, x: nat)
    requires k > 0
    ensures 2 * (Pow2(k - 1) * x) == Pow2(k) * x
  {
    MulAssoc(2, Pow2(k - 1), x);
  }

  lemma Halve(k: nat, lo: nat, hi: nat)
    requires k > 0 && lo < Pow2(k)
    ensures (lo + Pow2(k) * hi) % 2 == lo % 2 && (lo + Pow2(k) * hi) / 2 == lo / 2 + Pow2(k - 1) * hi
    ensures lo / 2 < Pow2(k - 1)
  {
    var y := Pow2(k - 1) * hi;
    MulAssoc(2, Pow2(k - 1), hi);
    EvenPart(lo, y);
  }

  lemma EvenPart(lo: nat, y: nat)
    ensures (lo + 2 * y) % 2 == lo % 2 && (lo + 2 * y) / 2 == lo / 2 + y
  {}

  /** The same, for the lowest byte. */
  lemma ByteApart(op: AluOp, lo: Byte, hi: nat, lo': Byte, hi': nat, width: nat)
    ensures Bitwise(op, lo as int + 256 * hi, lo' as int + 256 * hi', 8 + width)
         == Bitwise(op, lo, lo', 8) + 256 * Bitwise(op, hi, hi', width)
  {
    assert Pow2(8) == 256;
    Apart(op, 8, lo, hi, lo', hi', width);
  }

  // ----- The zero-byte test

  /** The subtract-and-mask test before its mask. */
  function Borrowed(l: nat, ones: nat, width: nat): (r: nat)
    requires l < Pow2(width)
    ensures r < Pow2(width)
  {
    And(Sub(l, ones, width), Not(l, width), width)
  }

  /** Bit 7 of a byte. */
  lemma TopBit(x: Byte)
    ensures Bitwise(AND, x, 128, 8) == if x >= 128 then 128 else 0
  {
    assert Pow2(7) == 128;
    BitTest(x, 7, 8);
    assert x / 128 == if x >= 128 then 1 else 0;
  }

  lemma TopOfAnd(x: Byte, y: Byte)
    ensures Bitwise(AND, x, y, 8) >= 128 <==> x >= 128 && y >= 128
  {
    assert Pow2(7) == 128;
    var a, b := (if x >= 128 then 1 else 0), if y >= 128 then 1 else 0;
    Apart(AND, 7, x - 128 * a, a, y - 128 * b, b, 1);
  }

  lemma SubApart(b: Byte, l: nat, ones: nat, n: nat)
    ensures Sub(b as int + 256 * l, 1 + 256 * ones, 8 + 8 * n)
      == (if b == 0 then 255 + 256 * Sub(l, ones + 1, 8 * n) else b - 1 + 256 * Sub(l, ones, 8 * n))
  {
    PowByte(n);
    var m := Pow2(8 * n);
    if b == 0 { ModByte(255, l - ones - 1, m); } else { ModByte(b - 1, l - ones, m); }
  }

  lemma ModByte(lo: Byte, y: int, m: nat)
    requires m > 0
    ensures (lo + 256 * y) % (256 * m) == lo + 256 * (y % m)
  {
    var q := y / m;
    assert y == q * m + y % m;
    assert 256 * (q * m) == q * (256 * m);
    DivModUnique(lo + 256 * y, 256 * m, q, lo + 256 * (y % m));
  }

  lemma NotApart(b: Byte, l: nat, n: nat)
    requires l < Pow2(8 * n)
    ensures b as int + 256 * l < Pow2(8 + 8 * n)
    ensures Not(b as int + 256 * l, 8 + 8 * n) == (255 - b) + 256 * Not(l, 8 * n)
  {
    PowByte(n);
  }

  /** What the lowest byte b contributes to the test. */
  lemma TestApart(b: Byte, l: nat, ones: nat, tops: nat, n: nat)
    requires l < Pow2(8 * n) && b as int + 256 * l < Pow2(8 + 8 * n)
    ensures var w := 8 + 8 * n;
      var r := And(Borrowed(b as int + 256 * l, 1 + 256 * ones, w), 128 + 256 * tops, w);
      if b == 0 then r != 0 else r == 256 * And(Borrowed(l, ones, 8 * n), tops, 8 * n)
  {
    SubApart(b, l, ones, n);
    NotApart(b, l, n);
    var d: Byte := if b == 0 then 255 else b - 1;
    var high := if b == 0 then Sub(l, ones + 1, 8 * n) else Sub(l, ones, 8 * n);
    MaskApart(d, high, 255 - b, Not(l, 8 * n), tops, 8 * n);
  }

  lemma MaskApart(d: Byte, high: nat, e: Byte, high': nat, tops: nat, width: nat)
    ensures And(And(d as int + 256 * high, e as int + 256 * high', 8 + width), 128 + 256 * tops, 8 + width)
      == (if d >= 128 && e >= 128 then 128 else 0) + 256 * And(And(high, high', width), tops, width)
  {
    ByteApart(AND, d, high, e, high', width);
    var x := Bitwise(AND, d, e, 8);
    assert Pow2(8) == 256;
    ByteApart(AND, x, And(high, high', width), 128, tops, width);
    TopBit(x);
    TopOfAnd(d, e);
  }

  /** The test of the n bytes of word l. */
  function Test(l: nat, n: nat): nat
    requires l < Pow2(8 * n)
  {
    And(Borrowed(l, Repeat(1, n), 8 * n), Repeat(128, n), 8 * n)
  }

  lemma TestStep(b: Byte, l: nat, n: nat)
    requires l < Pow2(8 * n)
    ensures b as int + 256 * l < Pow2(8 * (n + 1))
    ensures Test(b as int + 256 * l, n + 1) != 0 <==> b == 0 || Test(l, n) != 0
  {
    PowByte(n);
    assert 8 * (n + 1) == 8 + 8 * n;
    TestApart(b, l, Repeat(1, n), Repeat(128, n), n);
  }

  /** The masked difference is zero exactly if no byte is: borrows arise only above a zero byte. */
  lemma {:induction false} ZeroTest(bytes: seq<Byte>)
    ensures Test(Value(bytes), |bytes|) != 0 <==> 0 in bytes
  {
    if bytes != [] {
      ZeroTest(bytes[1..]);
      TestStep(bytes[0], Value(bytes[1..]), |bytes| - 1);
      assert bytes == [bytes[0]] + bytes[1..];
    }
  }

  // ----- Looking for a byte c, and for two bytes at once

  lemma {:induction false} XorZero(a: nat, b: nat, k: nat)
    requires a < Pow2(k) && b < Pow2(k)
    ensures Bitwise(XOR, a, b, k) == 0 <==> a == b
  {
    if k > 0 { XorZero(a / 2, b / 2, k - 1); }
  }

  function Xored(bytes: seq<Byte>, c: Byte): (r: seq<Byte>)
    ensures |r| == |bytes|
  {
    if bytes == [] then [] else
      assert Pow2(8) == 256;
      [Bitwise(XOR, bytes[0], c, 8)] + Xored(bytes[1..], c)
  }

  lemma XorStep(b: Byte, l: nat, c: Byte, n: nat)
    ensures Xor(b as int + 256 * l, Repeat(c, n + 1), 8 * (n + 1))
      == Bitwise(XOR, b, c, 8) + 256 * Xor(l, Repeat(c, n), 8 * n)
  {
    assert 8 * (n + 1) == 8 + 8 * n;
    ByteApart(XOR, b, l, c, Repeat(c, n), 8 * n);
  }

  lemma {:induction false} ValueXor(bytes: seq<Byte>, c: Byte)
    ensures Xor(Value(bytes), Repeat(c, |bytes|), 8 * |bytes|) == Value(Xored(bytes, c))
  {
    if bytes != [] {
      var n := |bytes| - 1;
      ValueXor(bytes[1..], c);
      XorStep(bytes[0], Value(bytes[1..]), c, n);
      assert Xored(bytes, c)[1..] == Xored(bytes[1..], c);
    }
  }

  lemma {:induction false} XoredHasZero(bytes: seq<Byte>, c: Byte)
    ensures 0 in Xored(bytes, c) <==> c in bytes
  {
    if bytes != [] {
      XoredHasZero(bytes[1..], c);
      assert Pow2(8) == 256;
      XorZero(bytes[0], c, 8);
      assert bytes == [bytes[0]] + bytes[1..];
    }
  }

  lemma {:induction false} AndOfOr(x: nat, y: nat, m: nat, width: nat)
    ensures And(Or(x, y, width), m, width) != 0 <==> And(x, m, width) != 0 || And(y, m, width) != 0
  {
    if width > 0 {
      AndOfOr(x / 2, y / 2, m / 2, width - 1);
      assert Or(x, y, width) / 2 == Or(x / 2, y / 2, width - 1);
    }
  }

  // ----- The repeated constants

  lemma {:induction false} OrNothing(a: nat, k: nat)
    requires a < Pow2(k)
    ensures Bitwise(OR, a, 0, k) == a && Bitwise(OR, 0, a, k) == a
  {
    if k > 0 { OrNothing(a / 2, k - 1); }
  }

  lemma {:induction false} Pow2Grows(a: nat, b: nat)
    requires a <= b
    ensures Pow2(a) <= Pow2(b)
  {
    if a < b { Pow2Grows(a, b - 1); }
  }

  /** Low bits and high bits, put together. */
  lemma {:induction false} OrJoins(k: nat, lo: nat, hi: nat, width: nat)
    requires lo < Pow2(k) && k <= width && hi < Pow2(width - k)
    ensures Bitwise(OR, lo, Pow2(k) * hi, width) == lo + Pow2(k) * hi
  {
    if k == 0 {
      OrNothing(hi, width);
    } else {
      var y := Pow2(k - 1) * hi;
      MulAssoc(2, Pow2(k - 1), hi);
      EvenPart(0, y);
      OrJoins(k - 1, lo / 2, hi, width - 1);
    }
  }

  /** A word beside itself, when both copies fit. */
  lemma OrShifted(r: nat, k: nat, width: nat)
    requires r < Pow2(k) && 2 * k <= width && Pow2(k) * r < Pow2(width)
    ensures Or(r, Shl(r, k, width), width) == r + Pow2(k) * r
  {
    ShlFits(r, k, width);
    Pow2Grows(k, width - k);
    OrJoins(k, r, r, width);
  }

  lemma ShlFits(r: nat, k: nat, width: nat)
    requires Pow2(k) * r < Pow2(width)
    ensures Shl(r, k, width) == Pow2(k) * r
  {
    assert r * Pow2(k) == Pow2(k) * r;
    Fits(r * Pow2(k), Pow2(width));
  }

  /** Doubling a repetition by shifting it beside itself. */
  lemma Doubling(c: Byte, n: nat, size: nat)
    requires 2 * n <= size
    ensures var r, w := Repeat(c, n), 8 * size; Or(r, Shl(r, 8 * n, w), w) == Repeat(c, 2 * n)
  {
    RepeatTwice(c, n, n);
    Pow2Grows(8 * (2 * n), 8 * size);
    OrShifted(Repeat(c, n), 8 * n, 8 * size);
  }

  lemma Fits(a: nat, m: nat)
    requires a < m
    ensures a % m == a
  {}

  lemma Distribute(q: int, m: int, r: int, y: int)
    ensures (q * m + r) * y == (q * y) * m + r * y
  {}

  lemma ModTimes(x: nat, y: nat, m: nat)
    requires m > 0
    ensures x % m * y % m == x * y % m
  {
    var q, r := x / m, x % m;
    Distribute(q, m, r, y);
    var q', r' := (r * y) / m, (r * y) % m;
    assert (q * y + q') * m == (q * y) * m + q' * m;
    DivModUnique(x * y, m, q * y + q', r');
  }

  lemma ShlTwice(a: nat, j: nat, k: nat, width: nat)
    ensures Shl(Shl(a, j, width), k, width) == Shl(a, j + k, width)
  {
    Pow2Sum(j, k);
    MulAssoc(a, Pow2(j), Pow2(k));
    ModTimes(a * Pow2(j), Pow2(k), Pow2(width));
  }

  lemma First(c: Byte)
    ensures Repeat(c, 1) == c && Repeat(1, 4) == 0x01010101
  {
    assert Repeat(1, 1) == 1 && Repeat(1, 2) == 0x0101 && Repeat(1, 3) == 0x010101;
  }

  /** A longword has more than 32 bits. */
  lemma Wider(size: nat)
    requires size >= 4
    ensures Pow2(8 * size) - 1 > 0xffff_ffff <==> size > 4
  {
    Pow2Word();
    if size > 4 { Pow2Grows(33, 8 * size); }
  }

  lemma {:induction false} PowerOver(e: nat, f: nat)
    ensures Pow2(e) < Pow2(f) <==> e < f
    ensures e < f ==> 2 * Pow2(e) <= Pow2(f)
  {
    if e < f { Pow2Grows(e + 1, f); } else { Pow2Grows(f, e); }
  }

  /** The words with 1, and with c, in each of their size == 2^e bytes. */
  method Constants(c: Byte, size: nat, ghost e: nat) returns (ones: nat, repeated: nat)
    requires e >= 2 && size == Pow2(e)
    ensures ones == Repeat(1, size) && repeated == Repeat(c, size)
  {
    assert Pow2(2) == 4;
    PowerOver(2, e);
    ones, repeated := FourBytes(c, size);
    Wider(size);
    if Pow2(8 * size) - 1 > 0xffff_ffff {
      ones, repeated := EightBytes(c, size, ones, repeated);
      ones, repeated := Widen(c, size, e, ones, repeated);
    }
  }

  method EightBytes(c: Byte, size: nat, ones: nat, repeated: nat) returns (ones': nat, repeated': nat)
    requires size >= 8 && ones == Repeat(1, 4) && repeated == Repeat(c, 4)
    ensures ones' == Repeat(1, 8) && repeated' == Repeat(c, 8)
  {
    hide Or, Shl, Repeat;
    var w := 8 * size;
    ShlTwice(ones, 31, 1, w);
    ShlTwice(repeated, 31, 1, w);
    Doubling(1, 4, size);
    Doubling(c, 4, size);
    ones' := Or(ones, Shl(Shl(ones, 31, w), 1, w), w);
    repeated' := Or(repeated, Shl(Shl(repeated, 31, w), 1, w), w);
  }

  method FourBytes(c: Byte, size: nat) returns (ones: nat, repeated: nat)
    requires size >= 4
    ensures ones == Repeat(1, 4) && repeated == Repeat(c, 4)
  {
    var w := 8 * size;
    First(c);
    Doubling(c, 1, size);
    Doubling(c, 2, size);
    ones := 0x01010101;
    repeated := Or(c, Shl(c, 8, w), w);
    repeated := Or(repeated, Shl(repeated, 16, w), w);
  }

  /** For longwords of more than eight bytes. */
  method Widen(c: Byte, size: nat, ghost e: nat, ones: nat, repeated: nat) returns (ones': nat, repeated': nat)
    requires e >= 3 && size == Pow2(e) && ones == Repeat(1, 8) && repeated == Repeat(c, 8)
    ensures ones' == Repeat(1, size) && repeated' == Repeat(c, size)
  {
    hide Or, Shl, Repeat;
    ones', repeated' := ones, repeated;
    assert Pow2(3) == 8;
    PowerOver(3, e);
    if 8 < size {
      var w := 8 * size;
      var i := 64;
      ghost var k := 3;
      while i < size * 8
        invariant k <= e && i == 8 * Pow2(k)
        invariant ones' == Repeat(1, Pow2(k)) && repeated' == Repeat(c, Pow2(k))
        decreases size * 8 - i
      {
        PowerOver(k, e);
        Doubling(1, Pow2(k), size);
        Doubling(c, Pow2(k), size);
        ones' := Or(ones', Shl(ones', i, w), w);
        repeated' := Or(repeated', Shl(repeated', i, w), w);
        i := i * 2;
        k := k + 1;
      }
      PowerOver(k, e);
    } else {
      PowerOver(3, e);
    }
  }

  // ----- The searches

  function Reversed(s: seq<Byte>): (r: seq<Byte>)
    ensures |r| == |s| && forall x :: x in r <==> x in s
  {
    if s == [] then [] else
      assert s == [s[0]] + s[1..];
      Reversed(s[1..]) + [s[0]]
  }

  /** The longword that starts at index i of memory. */
  function WordAt(mem: seq<Byte>, i: nat, size: nat, bigEndian: bool): (r: seq<Byte>)
    requires i + size <= |mem|
    ensures |r| == size && forall c :: c in r <==> c in mem[i..i + size]
  {
    if bigEndian then Reversed(mem[i..i + size]) else mem[i..i + size]
  }

  /** The byte c occurs in the word, by the test that looks at all bytes at once. */
  predicate Hits(word: nat, repeated: nat, ones: nat, size: nat)
  {
    var w := 8 * size;
    And(Borrowed(Xor(word, repeated, w), ones, w), Shl(ones, 7, w), w) != 0
  }

  lemma ShlOnes(n: nat)
    ensures Shl(Repeat(1, n), 7, 8 * n) == Repeat(128, n)
  {
    assert Pow2(7) == 128;
    RepeatTop(n);
    Fits(Repeat(128, n), Pow2(8 * n));
  }

  lemma HitsExactly(bytes: seq<Byte>, c: Byte)
    ensures Hits(Value(bytes), Repeat(c, |bytes|), Repeat(1, |bytes|), |bytes|) <==> c in bytes
  {
    ShlOnes(|bytes|);
    ValueXor(bytes, c);
    ZeroTest(Xored(bytes, c));
    XoredHasZero(bytes, c);
  }

  lemma MulGrows(x: int, y: int, m: nat)
    ensures x <= y ==> x * m <= y * m
  {}

  lemma NextBoundary(a: nat, size: nat)
    requires size > 0 && a % size == 0
    ensures (a + size) % size == 0
  {
    var q := a / size;
    assert (q + 1) * size == q * size + size;
    DivModUnique(a + size, size, q + 1, 0);
  }

  lemma WordFits(a: nat, b: nat, size: nat)
    requires size > 0 && a % size == 0 && b % size == 0 && a < b
    ensures a + size <= b
  {
    var q, q' := a / size, b / size;
    assert a == q * size && b == q' * size;
    MulGrows(q', q, size);
    MulGrows(q + 1, q', size);
    assert (q + 1) * size == q * size + size;
  }

  predicate NoneIn(mem: seq<Byte>, from: nat, to: nat, c: Byte)
    requires to <= |mem|
  {
    forall k :: from <= k < to ==> mem[k] != c
  }

  /** Nothing in the word at i, so nothing up to the next one. */
  lemma PassWord(mem: seq<Byte>, from: nat, i: nat, size: nat, c: Byte)
    requires from <= i && i + size <= |mem| && NoneIn(mem, from, i, c) && c !in mem[i..i + size]
    ensures NoneIn(mem, from, i + size, c)
  {
    forall k | i <= k < i + size ensures mem[k] != c { assert mem[k] == mem[i..i + size][k - i]; }
  }

  /** The test of the word at index i. */
  method TestWord(mem: seq<Byte>, i: nat, c: Byte, size: nat, bigEndian: bool, ones: nat, repeated: nat)
    returns (hit: bool)
    requires i + size <= |mem| && ones == Repeat(1, size) && repeated == Repeat(c, size)
    ensures hit <==> c in mem[i..i + size]
  {
    var word := WordAt(mem, i, size, bigEndian);
    HitsExactly(word, c);
    hit := Hits(Value(word), repeated, ones, size);
  }

  /** The first aligned word, from `from` on, in which the test finds the byte c. */
  method FindWord(mem: seq<Byte>, base: nat, s: nat, from: nat, c: Byte, size: nat, ghost e: nat, bigEndian: bool)
    returns (r: nat)
    requires e >= 2 && size == Pow2(e) && (base + |mem|) % size == 0 && (base + from) % size == 0
    requires s <= from <= |mem| && NoneIn(mem, s, from, c) && c in mem[from..]
    ensures from <= r && r + size <= |mem| && (base + r) % size == 0
    ensures NoneIn(mem, s, r, c) && c in mem[r..r + size]
  {
    ghost var t := HitIn(mem, from, |mem|, c);
    r := from;
    var ones, repeated := Constants(c, size, e);
    while true
      invariant from <= r <= t && (base + r) % size == 0 && NoneIn(mem, s, r, c)
      decreases t - r
    {
      WordFits(base + r, base + |mem|, size);
      var hit := TestWord(mem, r, c, size, bigEndian, ones, repeated);
      if hit { break; }
      PassWord(mem, s, r, size, c);
      NextBoundary(base + r, size);
      r := r + size;
    }
  }

  lemma HitIn(mem: seq<Byte>, from: nat, to: nat, c: Byte) returns (t: nat)
    requires from <= to <= |mem| && c in mem[from..to]
    ensures from <= t < to && mem[t] == c
  {
    var k :| 0 <= k < to - from && mem[from..to][k] == c;
    t := from + k;
  }

  /** The least index from s on that holds the byte cIn.  Memory starts at address base, and ends at a
      word boundary, as a page does: the search reads whole aligned words. */
  method Rawmemchr(mem: seq<Byte>, base: nat, s: nat, cIn: int, size: nat, ghost e: nat, bigEndian: bool)
    returns (r: nat)
    requires e >= 2 && size == Pow2(e) && s <= |mem| && (base + |mem|) % size == 0
    requires (cIn % 256) in mem[s..]
    ensures s <= r < |mem| && mem[r] == cIn % 256 && NoneIn(mem, s, r, cIn % 256)
  {
    var c: Byte := cIn % 256;
    ghost var t := HitIn(mem, s, |mem|, c);
    r := s;
    while (base + r) % size != 0
      invariant s <= r <= t && NoneIn(mem, s, r, c)
      decreases t - r
    {
      if mem[r] == c { return; }
      r := r + 1;
    }
    assert mem[r..][t - r] == c;
    r := FindWord(mem, base, s, r, c, size, e, bigEndian);
    t := HitIn(mem, r, r + size, c);
    while mem[r] != c
      invariant s <= r <= t && NoneIn(mem, s, r, c)
      decreases t - r
    {
      r := r + 1;
    }
  }

  // ----- Two bytes at once

  /** One of the two bytes c and NUL occurs in the word. */
  predicate HitsEither(word: nat, repeated: nat, ones: nat, size: nat)
    requires word < Pow2(8 * size)
  {
    var w := 8 * size;
    And(Or(Borrowed(Xor(word, repeated, w), ones, w), Borrowed(word, ones, w), w), Shl(ones, 7, w), w) != 0
  }

  lemma HitsEitherExactly(bytes: seq<Byte>, c: Byte)
    ensures HitsEither(Value(bytes), Repeat(c, |bytes|), Repeat(1, |bytes|), |bytes|) <==> c in bytes || 0 in bytes
  {
    var n := |bytes|;
    var w, ones := 8 * n, Repeat(1, n);
    HitsExactly(bytes, c);
    ShlOnes(n);
    ZeroTest(bytes);
    AndOfOr(Borrowed(Xor(Value(bytes), Repeat(c, n), w), ones, w), Borrowed(Value(bytes), ones, w), Repeat(128, n), w);
  }

  predicate NeitherIn(mem: seq<Byte>, from: nat, to: nat, c: Byte)
    requires to <= |mem|
  {
    NoneIn(mem, from, to, c) && NoneIn(mem, from, to, 0)
  }

  method TestWordForEither(mem: seq<Byte>, i: nat, c: Byte, size: nat, bigEndian: bool, ones: nat, repeated: nat)
    returns (hit: bool)
    requires i + size <= |mem| && ones == Repeat(1, size) && repeated == Repeat(c, size)
    ensures hit <==> c in mem[i..i + size] || 0 in mem[i..i + size]
  {
    var word := WordAt(mem, i, size, bigEndian);
    HitsEitherExactly(word, c);
    hit := HitsEither(Value(word), repeated, ones, size);
  }

  method FindWordOfEither(mem: seq<Byte>, base: nat, s: nat, from: nat, c: Byte, size: nat, ghost e: nat,
                          bigEndian: bool)
    returns (r: nat)
    requires e >= 2 && size == Pow2(e) && (base + |mem|) % size == 0 && (base + from) % size == 0
    requires s <= from <= |mem| && NeitherIn(mem, s, from, c) && 0 in mem[from..]
    ensures from <= r && r + size <= |mem| && (base + r) % size == 0
    ensures NeitherIn(mem, s, r, c) && (c in mem[r..r + size] || 0 in mem[r..r + size])
  {
    ghost var t := HitIn(mem, from, |mem|, 0);
    r := from;
    var ones, repeated := Constants(c, size, e);
    while true
      invariant from <= r <= t && (base + r) % size == 0 && NeitherIn(mem, s, r, c)
      decreases t - r
    {
      WordFits(base + r, base + |mem|, size);
      var hit := TestWordForEither(mem, r, c, size, bigEndian, ones, repeated);
      if hit { break; }
      PassWord(mem, s, r, size, c);
      PassWord(mem, s, r, size, 0);
      NextBoundary(base + r, size);
      r := r + size;
    }
  }

  /** The least index from s on that holds the byte cIn or the NUL that ends the string. */
  method Strchrnul(mem: seq<Byte>, base: nat, s: nat, cIn: int, size: nat, ghost e: nat, bigEndian: bool)
    returns (r: nat)
    requires e >= 2 && size == Pow2(e) && s <= |mem| && (base + |mem|) % size == 0
    requires 0 in mem[s..]
    ensures s <= r < |mem| && (mem[r] == cIn % 256 || mem[r] == 0) && NeitherIn(mem, s, r, cIn % 256)
  {
    var c: Byte := cIn % 256;
    if c == 0 {
      r := Rawmemchr(mem, base, s, 0, size, e, bigEndian);
      return;
    }
    ghost var t := HitIn(mem, s, |mem|, 0);
    r := s;
    while (base + r) % size != 0
      invariant s <= r <= t && NeitherIn(mem, s, r, c)
      decreases t - r
    {
      if mem[r] == 0 || mem[r] == c { return; }
      r := r + 1;
    }
    assert mem[r..][t - r] == 0;
    r := FindWordOfEither(mem, base, s, r, c, size, e, bigEndian);
    if c in mem[r..r + size] { t := HitIn(mem, r, r + size, c); } else { t := HitIn(mem, r, r + size, 0); }
    while mem[r] != 0 && mem[r] != c
      invariant s <= r <= t && NeitherIn(mem, s, r, c)
      decreases t - r
    {
      r := r + 1;
    }
  }
}
