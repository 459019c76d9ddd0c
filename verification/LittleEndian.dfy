/** Numbers as they lie in memory, low byte first. */
module LittleEndian {
  import opened Bytes
  import opened Multiples

  function Power256(k: nat): (r: nat)
    ensures r > 0
  {
    if k == 0 then 1 else 256 * Power256(k - 1)
  }

  lemma BytePowers()
    ensures Power256(0) == 1 && Power256(1) == 256 && Power256(2) == 0x1_0000
    ensures Power256(3) == 0x100_0000 && Power256(4) == 0x1_0000_0000
  {
    assert Power256(2) == 256 * Power256(1);
    assert Power256(4) == 256 * Power256(3);
  }

  /** The first `k` bytes of the number as it lies in memory, low byte first. */
  function LowBytes(n: nat, k: nat): (r: seq<byte>)
    ensures |r| == k
  {
    if k == 0 then [] else [n % 256] + LowBytes(n / 256, k - 1)
  }

  function Value(bs: seq<byte>): nat {
    if bs == [] then 0 else bs[0] + 256 * Value(bs[1..])
  }

  lemma {:induction false} LowBytesValue(n: nat, k: nat)
    ensures Value(LowBytes(n, k)) == n % Power256(k)
    decreases k
  {
    if k > 0 {
      LowBytesValue(n / 256, k - 1);
      assert LowBytes(n, k)[1..] == LowBytes(n / 256, k - 1);
      DivideTwice(n, 256, Power256(k - 1));
    }
  }

  /** A number that fits is read back as it was stored. */
  lemma ReadBack(n: nat, k: nat)
    requires n < Power256(k)
    ensures Value(LowBytes(n, k)) == n
  {
    LowBytesValue(n, k);
    SplitIsDivision(n, Power256(k), 0, n);
  }

  /** What is read of a number when only its first `j` bytes were programmed over ones. */
  function Torn(n: nat, w: nat, j: nat): nat
    requires j <= w
  {
    PowerGrows(j, w);
    n % Power256(j) + (Power256(w) - Power256(j))
  }

  lemma {:induction false} PowerGrows(j: nat, w: nat)
    requires j <= w
    ensures Power256(j) <= Power256(w)
    decreases w - j
  {
    if j < w {
      PowerGrows(j, w - 1);
    }
  }

  lemma {:induction false} TornValue(n: nat, w: nat, j: nat)
    requires j <= w
    ensures Value(LowBytes(n, w)[..j] + Fill(w - j, 0xFF)) == Torn(n, w, j)
    decreases w
  {
    var bs := LowBytes(n, w)[..j] + Fill(w - j, 0xFF);
    if j > 0 {
      TornValue(n / 256, w - 1, j - 1);
      assert bs[1..] == LowBytes(n / 256, w - 1)[..j - 1] + Fill(w - j, 0xFF);
      DivideTwice(n, 256, Power256(j - 1));
    } else if w > 0 {
      TornValue(n, w - 1, 0);
      assert bs[1..] == LowBytes(n, w - 1)[..0] + Fill(w - 1, 0xFF);
    } else {
      assert bs == [];
    }
  }

  /** Unwritten bytes read as ones: a torn number is not below the whole one. */
  lemma {:induction false} TornAtLeast(n: nat, w: nat, j: nat)
    requires j <= w && n < Power256(w)
    ensures Torn(n, w, j) >= n
    decreases w
  {
    if j > 0 {
      DivideTwice(n, 256, Power256(j - 1));
      TornAtLeast(n / 256, w - 1, j - 1);
    }
  }

  lemma TornBelow(n: nat, w: nat, j: nat)
    requires j <= w
    ensures Torn(n, w, j) < Power256(w)
  {
    PowerGrows(j, w);
  }

  lemma TornWhole(n: nat, w: nat)
    requires n < Power256(w)
    ensures Torn(n, w, w) == n
  {
    SplitIsDivision(n, Power256(w), 0, n);
  }

  lemma {:induction false} ValueBounded(bs: seq<byte>)
    ensures Value(bs) < Power256(|bs|)
    decreases |bs|
  {
    if bs != [] {
      ValueBounded(bs[1..]);
    }
  }

  lemma ValueFirst(bs: seq<byte>)
    requires bs != []
    ensures Value(bs) % 256 == bs[0] && Value(bs) / 256 == Value(bs[1..])
  {
    var low: nat, rest := bs[0], Value(bs[1..]);
    assert Value(bs) == low + 256 * rest;
  }

  lemma {:induction false} ValueLowBytes(bs: seq<byte>)
    ensures LowBytes(Value(bs), |bs|) == bs
    decreases |bs|
  {
    hide Value;
    if bs != [] {
      ValueFirst(bs);
      ValueLowBytes(bs[1..]);
      assert bs == [bs[0]] + bs[1..];
    }
  }
}
