/** lib/bcd.c: binary numbers to packed decimal digits and back. */
module Bcd {
  import opened Bytes
  import opened Multiples
  import opened LittleEndian

  function Pow10(k: nat): (r: nat)
    ensures r > 0
  {
    if k == 0 then 1 else 10 * Pow10(k - 1)
  }

  function Pow16(k: nat): (r: nat)
    ensures r > 0
  {
    if k == 0 then 1 else 16 * Pow16(k - 1)
  }

  function Digit(x: nat, k: nat): (d: nat)
    ensures d < 10
  {
    x / Pow10(k) % 10
  }

  function Nibble(v: nat, k: nat): (d: nat)
    ensures d < 16
  {
    v / Pow16(k) % 16
  }

  // ---- The digits, two to a byte ----

  /** The last two decimal digits of `x` in one byte. */
  function PackedByte(x: nat): byte {
    x % 10 + 16 * (x / 10 % 10)
  }

  function UnpackedByte(b: byte): nat {
    b % 16 + 10 * (b / 16)
  }

  /** The low 2n decimal digits of `x` in n bytes, lowest first. */
  function Packed(x: nat, n: nat): (r: seq<byte>)
    ensures |r| == n
  {
    if n == 0 then [] else [PackedByte(x)] + Packed(x / 100, n - 1)
  }

  function Unpacked(bs: seq<byte>): nat {
    if bs == [] then 0 else UnpackedByte(bs[0]) + 100 * Unpacked(bs[1..])
  }

  function ToBcd(x: nat, n: nat): nat {
    Value(Packed(x, n))
  }

  function FromBcd(v: nat, n: nat): nat {
    Unpacked(LowBytes(v, n))
  }

  predicate IsDecimal(b: byte) {
    b % 16 <= 9 && b / 16 <= 9
  }

  lemma {:induction false} PackedAt(x: nat, n: nat, j: nat)
    requires j < n
    ensures Packed(x, n)[j] == Digit(x, 2 * j) + 16 * Digit(x, 2 * j + 1)
    decreases n
  {
    hide PackedByte, Digit;
    if j > 0 {
      PackedAt(x / 100, n - 1, j - 1);
      DigitShift(x, 2 * j - 2);
      DigitShift(x, 2 * j - 1);
    } else {
      PackedFirst(x);
    }
  }

  lemma PackedFirst(x: nat)
    ensures PackedByte(x) == Digit(x, 0) + 16 * Digit(x, 1)
  {
    assert Pow10(0) == 1 && Pow10(1) == 10;
  }

  lemma DigitShift(x: nat, k: nat)
    ensures Digit(x / 100, k) == Digit(x, k + 2)
  {
    DivideTwice(x, 100, Pow10(k));
    assert Pow10(k + 2) == 10 * Pow10(k + 1) == 100 * Pow10(k);
  }

  lemma NibbleShift(v: nat, k: nat)
    ensures Nibble(v / 256, k) == Nibble(v, k + 2)
  {
    DivideTwice(v, 256, Pow16(k));
    assert Pow16(k + 2) == 16 * Pow16(k + 1) == 256 * Pow16(k);
  }

  lemma {:induction false} ValueNibbles(bs: seq<byte>, j: nat)
    requires j < |bs|
    ensures Nibble(Value(bs), 2 * j) == bs[j] % 16
    ensures Nibble(Value(bs), 2 * j + 1) == bs[j] / 16
    decreases |bs|
  {
    hide Nibble, Value;
    ValueNibbleFirst(bs);
    if j > 0 {
      ValueNibbles(bs[1..], j - 1);
      NibbleShift(Value(bs), 2 * j - 2);
      NibbleShift(Value(bs), 2 * j - 1);
    }
  }

  lemma ValueNibbleFirst(bs: seq<byte>)
    requires bs != []
    ensures Nibble(Value(bs), 0) == bs[0] % 16
    ensures Nibble(Value(bs), 1) == bs[0] / 16
    ensures Value(bs) / 256 == Value(bs[1..])
  {
    ValueFirst(bs);
    assert Pow16(0) == 1 && Pow16(1) == 16;
    assert Value(bs) / 16 == bs[0] / 16 + 16 * Value(bs[1..]);
  }

  lemma TwoNibbles(lo: nat, hi: nat)
    requires lo < 16 && hi < 16
    ensures (lo + 16 * hi) % 16 == lo && (lo + 16 * hi) / 16 == hi
  {
  }

  lemma DigitBounded(x: nat, k: nat)
    ensures Digit(x, k) < 10
  {
  }

  /** Nibble k of the packed number is decimal digit k of the binary one. */
  lemma NibblesAreDigits(x: nat, n: nat, k: nat)
    requires k < 2 * n
    ensures Nibble(ToBcd(x, n), k) == Digit(x, k)
  {
    hide Nibble, Digit, Packed, Value;
    PackedLength(x, n);
    var j := k / 2;
    PackedAt(x, n, j);
    ValueNibbles(Packed(x, n), j);
    DigitBounded(x, 2 * j);
    DigitBounded(x, 2 * j + 1);
    TwoNibbles(Digit(x, 2 * j), Digit(x, 2 * j + 1));
    assert k == 2 * j || k == 2 * j + 1;
  }

  lemma ByteRoundTrip(x: nat)
    ensures UnpackedByte(PackedByte(x)) == x % 100
  {
    TwoNibbles(x % 10, x / 10 % 10);
    LastTwo(x);
  }

  lemma LastTwo(x: nat)
    ensures x % 100 == x % 10 + 10 * (x / 10 % 10)
  {
  }

  /** Only a byte of two digits is what its value is packed to. */
  lemma ByteBack(b: byte, rest: nat)
    ensures var x := UnpackedByte(b) + 100 * rest;
            && (PackedByte(x) == b <==> IsDecimal(b))
            && (IsDecimal(b) ==> x / 100 == rest)
  {
    hide PackedByte, UnpackedByte;
    if IsDecimal(b) {
      DecimalBack(b, rest);
    } else {
      PackedIsDecimal(UnpackedByte(b) + 100 * rest);
    }
  }

  lemma DecimalBack(b: byte, rest: nat)
    requires IsDecimal(b)
    ensures var x := UnpackedByte(b) + 100 * rest;
            PackedByte(x) == b && x / 100 == rest
  {
    var x, lo, hi := UnpackedByte(b) + 100 * rest, b % 16, b / 16;
    assert x == lo + 10 * (hi + 10 * rest);
    assert x % 10 == lo && x / 10 == hi + 10 * rest;
  }

  lemma PackedIsDecimal(x: nat)
    ensures IsDecimal(PackedByte(x))
  {
    TwoNibbles(x % 10, x / 10 % 10);
  }

  lemma {:induction false} UnpackedPacked(x: nat, n: nat)
    ensures Unpacked(Packed(x, n)) == x % Pow10(2 * n)
    decreases n
  {
    hide PackedByte, UnpackedByte, Pow10;
    PowerOfZero();
    if n > 0 {
      UnpackedPacked(x / 100, n - 1);
      assert Packed(x, n)[1..] == Packed(x / 100, n - 1);
      ByteRoundTrip(x);
      Hundredfold(2 * n - 2);
      DivideTwice(x, 100, Pow10(2 * n - 2));
    }
  }

  lemma PowerOfZero()
    ensures Pow10(0) == 1
  {
  }

  lemma Hundredfold(k: nat)
    ensures Pow10(k + 2) == 100 * Pow10(k) && Pow10(k) > 0
  {
    assert Pow10(k + 2) == 10 * Pow10(k + 1);
  }

  /** Binary to BCD and back keeps the low 2n digits. */
  lemma BinaryRoundTrip(x: nat, n: nat)
    ensures FromBcd(ToBcd(x, n), n) == x % Pow10(2 * n)
  {
    ValueLowBytes(Packed(x, n));
    UnpackedPacked(x, n);
  }

  lemma {:induction false} PackedUnpacked(bs: seq<byte>)
    ensures Packed(Unpacked(bs), |bs|) == bs <==> forall i :: 0 <= i < |bs| ==> IsDecimal(bs[i])
    decreases |bs|
  {
    if bs != [] {
      hide PackedByte, UnpackedByte, IsDecimal;
      var all := Packed(Unpacked(bs), |bs|);
      PackedUnpacked(bs[1..]);
      ByteBack(bs[0], Unpacked(bs[1..]));
      assert all[0] == PackedByte(Unpacked(bs)) && all[1..] == Packed(Unpacked(bs) / 100, |bs| - 1);
      assert all == [all[0]] + all[1..] && bs == [bs[0]] + bs[1..];
      assert forall i :: 0 < i < |bs| ==> bs[i] == bs[1..][i - 1];
      assert forall i :: 0 <= i < |bs| - 1 ==> bs[1..][i] == bs[i + 1];
    }
  }

  lemma AllDecimal(bs: seq<byte>)
    ensures (forall i :: 0 <= i < |bs| ==> IsDecimal(bs[i])) <==>
            forall k :: 0 <= k < 2 * |bs| ==> Nibble(Value(bs), k) <= 9
  {
    hide Nibble, Value;
    forall j | 0 <= j < |bs|
      ensures IsDecimal(bs[j]) <==> Nibble(Value(bs), 2 * j) <= 9 && Nibble(Value(bs), 2 * j + 1) <= 9
    {
      ValueNibbles(bs, j);
    }
    forall k | 0 <= k < 2 * |bs|
      ensures IsDecimal(bs[k / 2]) ==> Nibble(Value(bs), k) <= 9
    {
      assert k == 2 * (k / 2) || k == 2 * (k / 2) + 1;
    }
    forall j | 0 <= j < |bs|
      ensures (forall k :: 0 <= k < 2 * |bs| ==> Nibble(Value(bs), k) <= 9) ==> IsDecimal(bs[j])
    {
      assert 0 <= 2 * j < 2 * |bs| && 2 * j + 1 < 2 * |bs|;
    }
  }

  /** BCD to binary and back gives the number again exactly when all its nibbles are digits. */
  lemma BcdRoundTrip(v: nat, n: nat)
    requires v < Power256(n)
    ensures ToBcd(FromBcd(v, n), n) == v <==> forall k :: 0 <= k < 2 * n ==> Nibble(v, k) <= 9
  {
    hide PackedByte, UnpackedByte, Packed, Unpacked, LowBytes, Value, Nibble, IsDecimal, Power256;
    var bs := LowBytes(v, n);
    LowBytesLength(v, n);
    ReadBack(v, n);
    PackedUnpacked(bs);
    AllDecimal(bs);
    PackedLength(Unpacked(bs), n);
    ValueLowBytes(Packed(Unpacked(bs), n));
  }

  lemma LowBytesLength(v: nat, n: nat)
    ensures |LowBytes(v, n)| == n
  {
  }

  lemma PackedLength(x: nat, n: nat)
    ensures |Packed(x, n)| == n
  {
  }

  // ---- sprintf ----

  /** `%0<w>u` of a number of at most w digits. */
  function Decimal(x: nat, w: nat): (r: string)
    ensures |r| == w
  {
    if w == 0 then [] else Decimal(x / 10, w - 1) + [(48 + x % 10) as char]
  }

  lemma DecimalLength(x: nat, w: nat)
    ensures |Decimal(x, w)| == w
  {
  }

  lemma {:induction false} DecimalAt(x: nat, w: nat, i: nat)
    requires i < w
    ensures Decimal(x, w)[i] as int % 16 == Digit(x, w - 1 - i)
    decreases w
  {
    if i < w - 1 {
      DecimalAt(x / 10, w - 1, i);
      DivideTwice(x, 10, Pow10(w - 2 - i));
      assert Pow10(w - 1 - i) == 10 * Pow10(w - 2 - i);
    } else {
      assert Pow10(0) == 1;
    }
  }

  /** Two characters of the text make one packed byte. */
  lemma StringByte(x: nat, w: nat, at: nat, n: nat, j: nat)
    requires j < n && at + 2 * j + 2 == w
    ensures Decimal(x, w)[at] as int % 16 * 16 + Decimal(x, w)[at + 1] as int % 16 == Packed(x, n)[j]
  {
    hide Packed, Digit;
    PackedLength(x, n);
    DecimalAt(x, w, at);
    DecimalAt(x, w, at + 1);
    PackedAt(x, n, j);
  }

  // ---- The converters ----

  function Bcd2Bin8(x: byte): byte {
    (x % 16 + x / 16 * 10) % 256
  }

  function Bin2Bcd8(x: byte): byte {
    (x / 10 * 16 + x % 10) % 256
  }

  method Bin2Bcd16(x: nat) returns (n: nat)
    requires x < 0x1_0000
    ensures n == ToBcd(x, 2)
  {
    hide Packed, Decimal;
    PackedLength(x, 2);
    DecimalLength(x, 5);
    var str := Decimal(x, 5);
    var bcd := new byte[2];
    for i := 1 to 3
      invariant forall j :: 2 - i < j < 2 ==> bcd[j] == Packed(x, 2)[j]
    {
      StringByte(x, 5, 2 * i - 1, 2, 2 - i);
      bcd[2 - i] := str[2 * i - 1] as int % 16 * 16 + str[2 * i] as int % 16;
    }
    assert bcd[..] == Packed(x, 2);
    n := Value(bcd[..]);
  }

  method Bin2Bcd32(x: nat) returns (n: nat)
    requires x < 0x1_0000_0000
    ensures n == ToBcd(x, 4)
  {
    hide Packed, Decimal;
    PackedLength(x, 4);
    DecimalLength(x, 10);
    var str := Decimal(x, 10);
    var bcd := new byte[4];
    for i := 1 to 5
      invariant forall j :: 4 - i < j < 4 ==> bcd[j] == Packed(x, 4)[j]
    {
      StringByte(x, 10, 2 * i, 4, 4 - i);
      bcd[4 - i] := str[2 * i] as int % 16 * 16 + str[2 * i + 1] as int % 16;
    }
    assert bcd[..] == Packed(x, 4);
    n := Value(bcd[..]);
  }

  lemma TopDigit(x: nat, k: nat)
    ensures x % Pow10(k + 1) / Pow10(k) == Digit(x, k)
    ensures x % Pow10(k + 1) % Pow10(k) == x % Pow10(k)
    ensures Pow10(k + 1) / 10 == Pow10(k) > 0
  {
    DivideTwice(x, Pow10(k), 10);
    assert Pow10(k + 1) == Pow10(k) * 10;
    SplitIsDivision(x % Pow10(k + 1), Pow10(k), Digit(x, k), x % Pow10(k));
  }

  method Bin2Bcd64(x0: nat) returns (n: nat)
    requires x0 < 0x1_0000_0000_0000_0000
    ensures n == ToBcd(x0, 8)
  {
    hide Digit, Pow10, Packed;
    PackedLength(x0, 8);
    var x, power := x0, 10000000000000000;
    var bcd := new byte[8];
    var i: nat := 8;
    PowerOfSixteen();
    while i > 0
      invariant i <= 8 && power == Pow10(2 * i) && x % power == x0 % power
      invariant forall j :: i <= j < 8 ==> bcd[j] == Packed(x0, 8)[j]
    {
      TopDigit(x0, 2 * i - 1);
      TopDigit(x0, 2 * i - 2);
      PackedAt(x0, 8, i - 1);
      x := x % power;
      power := power / 10;
      var n1 := x / power;
      x := x % power;
      power := power / 10;
      var n2 := x / power;
      bcd[i - 1] := n1 * 16 + n2;
      i := i - 1;
    }
    assert bcd[..] == Packed(x0, 8);
    n := Value(bcd[..]);
  }

  lemma PowerOfSixteen()
    ensures Pow10(16) == 10000000000000000
  {
    assert Pow10(4) == 10000;
    assert Pow10(8) == 10000 * Pow10(4);
    assert Pow10(12) == 10000 * Pow10(8);
    assert Pow10(16) == 10000 * Pow10(12);
  }

  /** What digit `d` is worth at position `k`. */
  function Place(d: nat, k: nat): nat {
    d * Pow10(k)
  }

  lemma {:induction false} UnpackedSnoc(bs: seq<byte>, b: byte)
    ensures Unpacked(bs + [b]) == Unpacked(bs) + Place(b % 16, 2 * |bs|) + Place(b / 16, 2 * |bs| + 1)
    decreases |bs|
  {
    if bs == [] {
      assert Pow10(0) == 1 && Pow10(1) == 10;
      assert ([b])[1..] == [];
    } else {
      UnpackedSnoc(bs[1..], b);
      hide Pow10;
      assert (bs + [b])[1..] == bs[1..] + [b];
      Hundredfold(2 * |bs| - 2);
      Hundredfold(2 * |bs| - 1);
      TimesHundred(b % 16, Pow10(2 * |bs| - 2));
      TimesHundred(b / 16, Pow10(2 * |bs| - 1));
    }
  }

  lemma TimesHundred(d: nat, p: nat)
    ensures 100 * (d * p) == d * (100 * p)
  {
  }

  lemma {:induction false} UnpackedBounded(bs: seq<byte>)
    ensures 3 * Unpacked(bs) <= 5 * (Pow10(2 * |bs|) - 1)
    decreases |bs|
  {
    if bs != [] {
      UnpackedBounded(bs[1..]);
      Hundredfold(2 * |bs| - 2);
    }
  }

  lemma Fits(bs: seq<byte>)
    requires |bs| <= 4
    ensures |bs| <= 2 ==> Unpacked(bs) < 0x1_0000
    ensures Unpacked(bs) < 0x1_0000_0000
  {
    UnpackedBounded(bs);
    assert Pow10(2) == 100;
    assert Pow10(4) == 100 * Pow10(2);
    assert Pow10(6) == 100 * Pow10(4);
    assert Pow10(8) == 100 * Pow10(6);
  }

  lemma SumStep(bs: seq<byte>, b: byte, width: nat)
    requires |bs| < 4 && (width == 0x1_0000_0000 || (width == 0x1_0000 && |bs| < 2))
    ensures ((Unpacked(bs) + Place(b % 16, |bs| * 2)) % width + Place(b / 16 % 16, |bs| * 2 + 1)) % width ==
            Unpacked(bs + [b])
  {
    hide Unpacked, Place;
    HighNibble(b);
    UnpackedSnoc(bs, b);
    Fits(bs + [b]);
    NoWrap(Unpacked(bs), Place(b % 16, |bs| * 2), Place(b / 16, |bs| * 2 + 1), width);
  }

  lemma HighNibble(b: byte)
    ensures b / 16 % 16 == b / 16
  {
  }

  lemma NoWrap(u: nat, v: nat, w: nat, width: nat)
    requires u + v + w < width
    ensures ((u + v) % width + w) % width == u + v + w
  {
    SplitIsDivision(u + v, width, 0, u + v);
    SplitIsDivision(u + v + w, width, 0, u + v + w);
  }

  /** bcd2bin16 (two bytes) and bcd2bin32 (four): the sum, kept in as many bits, never
      wraps, whatever the nibbles. */
  method Bcd2Bin(v: nat, bytes: nat) returns (y: nat)
    requires (bytes == 2 || bytes == 4) && v < Power256(bytes)
    ensures y == FromBcd(v, bytes)
  {
    hide Place, Power256, Unpacked, LowBytes;
    var width := if bytes == 2 then 0x1_0000 else 0x1_0000_0000;
    LowBytesLength(v, bytes);
    var p := LowBytes(v, bytes);
    y := 0;
    UnpackedEmpty(p);
    for i := 0 to bytes
      invariant y == Unpacked(p[..i])
    {
      assert p[..i + 1] == p[..i] + [p[i]];
      SumStep(p[..i], p[i], width);
      y := (y + Place(p[i] % 16, i * 2)) % width;
      y := (y + Place(p[i] / 16 % 16, i * 2 + 1)) % width;
    }
    assert p[..bytes] == p;
  }

  lemma UnpackedEmpty(p: seq<byte>)
    ensures Unpacked(p[..0]) == 0
  {
  }

  /** What `v` stands for when nibble k is worth 10^k, its lowest `m` nibbles counted. */
  function Weighted(v: nat, m: nat): nat {
    if m == 0 then 0 else Weighted(v, m - 1) + Place(Nibble(v, m - 1), m - 1)
  }

  lemma {:induction false} PrefixWeighs(bs: seq<byte>, i: nat)
    requires i <= |bs|
    ensures Unpacked(bs[..i]) == Weighted(Value(bs), 2 * i)
    decreases i
  {
    hide Nibble, Value, Place;
    if i > 0 {
      PrefixWeighs(bs, i - 1);
      assert bs[..i] == bs[..i - 1] + [bs[i - 1]];
      UnpackedSnoc(bs[..i - 1], bs[i - 1]);
      ValueNibbles(bs, i - 1);
    }
  }

  /** The number read from n bytes is the sum of all their nibbles, digits or not, each worth
      its power of ten. */
  lemma FromBcdWeighs(v: nat, n: nat)
    requires v < Power256(n)
    ensures FromBcd(v, n) == Weighted(v, 2 * n)
  {
    hide Nibble, Value, LowBytes, Unpacked, Weighted;
    LowBytesLength(v, n);
    var bs := LowBytes(v, n);
    ReadBack(v, n);
    PrefixWeighs(bs, n);
    assert bs[..n] == bs;
  }

  /** bcd2bin8 is the number read from a single byte: it never wraps. */
  lemma Bcd2Bin8Weighs(b: byte)
    ensures Bcd2Bin8(b) == Weighted(b, 2)
  {
    hide Weighted, Nibble;
    assert [b][1..] == [] && [b][..1] == [b] && Value([b]) == b;
    assert Unpacked([b]) == UnpackedByte(b);
    PrefixWeighs([b], 1);
    TwoDigitsFit(b % 16, b / 16);
  }

  /** bin2bcd8 writes the two low digits exactly when there are no more. */
  lemma Bin2Bcd8Packs(b: byte)
    ensures Bin2Bcd8(b) == PackedByte(b) <==> b < 100
    ensures b < 100 ==> Bin2Bcd8(b) % 16 == b % 10 && Bin2Bcd8(b) / 16 == b / 10
  {
    var tens, ones := b / 10, b % 10;
    Truncated(tens, ones);
    PackedTens(tens, ones);
    TwoNibbles(ones, tens % 16);
  }

  lemma PackedTens(tens: nat, ones: nat)
    requires tens < 26 && ones < 10
    ensures tens % 16 * 16 + ones == ones + 16 * (tens % 10) <==> tens < 10
  {
    if tens >= 20 {
      assert tens % 10 == tens - 20 && tens % 16 == tens - 16;
    } else if tens >= 10 {
      assert tens % 10 == tens - 10;
    }
  }

  // ---- The test for BCD ----

  /** Every low nibble is a digit. */
  predicate Accepted(p: seq<byte>) {
    forall i :: 0 <= i < |p| ==> p[i] % 16 <= 9
  }

  /** Bytes that isnotbcd lets pass are BCD, unpacked and packed to themselves, exactly when
      none is 0xA0 or above. */
  lemma AcceptedIsBcd(p: seq<byte>)
    requires Accepted(p)
    ensures Packed(Unpacked(p), |p|) == p <==> forall i :: 0 <= i < |p| ==> p[i] < 0xA0
  {
    PackedUnpacked(p);
    forall i | 0 <= i < |p|
      ensures IsDecimal(p[i]) <==> p[i] < 0xA0
    {
    }
  }

  /** And there is such a byte. */
  lemma HighNibblePasses()
    ensures Accepted([0xA0]) && Packed(Unpacked([0xA0]), 1) != [0xA0]
  {
    AcceptedIsBcd([0xA0]);
    assert [0xA0][0] >= 0xA0;
  }

  /** isnotbcd: the first byte the two 8-bit converters do not bring back. */
  method IsNotBcd(p: seq<byte>) returns (res: nat)
    ensures res == 0 <==> Accepted(p)
    ensures res <= 1
  {
    var i := 0;
    while i < |p|
      invariant i <= |p|
      invariant forall j :: 0 <= j < i ==> p[j] % 16 <= 9
    {
      var temp := Bcd2Bin8(p[i]);
      temp := Bin2Bcd8(temp);
      ByteComesBack(p[i]);
      if temp != p[i] {
        break;
      }
      i := i + 1;
    }
    res := if i < |p| then 1 else 0;
  }

  /** An 8-bit BCD to binary and back gives the byte again exactly when its low nibble is a
      digit, whatever the high one is. */
  lemma ByteComesBack(b: byte)
    ensures Bin2Bcd8(Bcd2Bin8(b)) == b <==> b % 16 <= 9
  {
    var lo, hi := b % 16, b / 16;
    var v := hi * 10 + lo;
    assert Bcd2Bin8(b) == v;
    if lo <= 9 {
      assert v / 10 == hi && v % 10 == lo;
    } else {
      assert v / 10 == hi + 1 && v % 10 == lo - 10;
    }
  }

  /** A binary byte comes back exactly when it has two digits. */
  lemma BinaryByteComesBack(x: byte)
    ensures Bcd2Bin8(Bin2Bcd8(x)) == x <==> x < 160
  {
    hide Bcd2Bin8, Bin2Bcd8;
    TwoBytes(x, x / 10, x % 10);
  }

  lemma TwoBytes(x: byte, tens: nat, ones: nat)
    requires tens == x / 10 && ones == x % 10
    ensures tens < 26 && ones < 10 && x == 10 * tens + ones
    ensures Bcd2Bin8(Bin2Bcd8(x)) == tens % 16 * 10 + ones
  {
    Truncated(tens, ones);
    TwoNibbles(ones, tens % 16);
    TwoDigitsFit(ones, tens % 16);
  }

  /** The shift by four drops all but the low four bits of the tens. */
  lemma Truncated(tens: nat, ones: nat)
    requires tens < 32 && ones < 16
    ensures (tens * 16 + ones) % 256 == tens % 16 * 16 + ones
  {
    if tens >= 16 {
      assert tens % 16 == tens - 16;
      assert tens * 16 + ones == 256 + ((tens - 16) * 16 + ones);
    }
  }

  lemma TwoDigitsFit(lo: nat, hi: nat)
    requires lo < 16 && hi < 16
    ensures (lo + hi * 10) % 256 == lo + hi * 10
  {
  }
}
