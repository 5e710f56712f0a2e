/** Bit strings, most significant bit first. */
module BitStrings {
  // With their unsigned values, and the C operators on unsigned 32-bit numbers that the codec uses.


  type Bits = seq<bool>

  const TWO_32 := 0x1_0000_0000

  function Pow2(n: nat): (p: nat)
    ensures p >= 1
  {
    if n == 0 then 1 else 2 * Pow2(n - 1)
  }

  /** The n low bits of v, most significant first. */
  function ToBits(v: nat, n: nat): (b: Bits)
    ensures |b| == n
  {
    if n == 0 then [] else ToBits(v / 2, n - 1) + [v % 2 == 1]
  }

  function FromBits(b: Bits): (v: nat)
    ensures v < Pow2(|b|)
  {
    if b == [] then 0
    else 2 * FromBits(b[..|b| - 1]) + (if b[|b| - 1] then 1 else 0)
  }

  function Zeros(n: nat): (b: Bits)
    ensures |b| == n
  {
    seq(n, i => false)
  }

  function Ones(n: nat): (b: Bits)
    ensures |b| == n
  {
    seq(n, i => true)
  }

  /** x << s, by repeated doubling: x * 2^s. */
  function Up(x: nat, s: nat): nat {
    if s == 0 then x else 2 * Up(x, s - 1)
  }

  /** x >> s, by repeated halving: x / 2^s. */
  function Down(x: nat, s: nat): nat {
    if s == 0 then x else Down(x / 2, s - 1)
  }

  /** x & (2^n - 1): x modulo 2^n. */
  function Low(x: nat, n: nat): (r: nat)
    ensures r < Pow2(n)
  {
    if n == 0 then 0 else 2 * Low(x / 2, n - 1) + x % 2
  }

  lemma {:induction false} Pow2Monotone(a: nat, b: nat)
    requires a <= b
    ensures Pow2(a) <= Pow2(b)
  {
    if a < b {
      Pow2Monotone(a, b - 1);
    }
  }

  lemma Pow2Values()
    ensures Pow2(8) == 0x100 && Pow2(16) == 0x1_0000 && Pow2(24) == 0x100_0000 && Pow2(32) == TWO_32
  {
    assert Pow2(8) == 0x100;
    assert Pow2(16) == 0x1_0000;
    assert Pow2(24) == 0x100_0000;
  }

  /** Widths used by the codec never exceed 32 bits. */
  lemma Pow2Word(n: nat)
    requires n <= 32
    ensures if n == 32 then Pow2(n) == TWO_32 else 2 * Pow2(n) <= TWO_32
  {
    Pow2Values();
    if n < 32 {
      Pow2Monotone(n + 1, 32);
    }
  }

  lemma {:induction false} LowSmall(v: nat, n: nat)
    requires v < Pow2(n)
    ensures Low(v, n) == v
  {
    if n > 0 {
      LowSmall(v / 2, n - 1);
    }
  }

  lemma {:induction false} LowOfLow(v: nat, k: nat, n: nat)
    requires k <= n
    ensures Low(Low(v, n), k) == Low(v, k)
  {
    if k > 0 {
      LowOfLow(v / 2, k - 1, n - 1);
      HalfAndLast(Low(v / 2, n - 1), v % 2);
    }
  }

  lemma HalfAndLast(x: nat, b: nat)
    requires b < 2
    ensures (2 * x + b) / 2 == x && (2 * x + b) % 2 == b
  {
  }

  lemma {:induction false} LowOfSum(v: nat, d: nat, k: nat)
    ensures Low(v + Up(d, k), k) == Low(v, k)
  {
    if k > 0 {
      var x := Up(d, k - 1);
      assert (v + 2 * x) / 2 == v / 2 + x && (v + 2 * x) % 2 == v % 2;
      LowOfSum(v / 2, d, k - 1);
    }
  }

  lemma {:induction false} UpOfPow2(g: nat, s: nat)
    ensures Up(Pow2(g), s) == Pow2(g + s)
  {
    if s > 0 {
      UpOfPow2(g, s - 1);
    }
  }

  lemma {:induction false} UpNext(x: nat, s: nat)
    ensures Up(x + 1, s) == Up(x, s) + Pow2(s)
  {
    if s > 0 {
      UpNext(x, s - 1);
    }
  }

  lemma {:induction false} DownOfUp(x: nat, lo: nat, s: nat)
    requires lo < Pow2(s)
    ensures Down(Up(x, s) + lo, s) == x && Low(Up(x, s) + lo, s) == lo
  {
    if s > 0 {
      DownOfUp(x, lo / 2, s - 1);
    }
  }

  /** Every number is its upper part and its lower part. */
  lemma {:induction false} UpDownLow(x: nat, s: nat)
    ensures x == Up(Down(x, s), s) + Low(x, s)
  {
    if s > 0 {
      UpDownLow(x / 2, s - 1);
    }
  }

  /** Reading back n bits gives the value without its bits above position n. */
  lemma {:induction false} FromToBits(v: nat, n: nat)
    ensures FromBits(ToBits(v, n)) == Low(v, n)
    ensures v < Pow2(n) ==> FromBits(ToBits(v, n)) == v
  {
    if n > 0 {
      FromToBits(v / 2, n - 1);
      assert ToBits(v, n)[..n - 1] == ToBits(v / 2, n - 1);
    }
  }

  lemma {:induction false} ToFromBits(b: Bits)
    ensures ToBits(FromBits(b), |b|) == b
  {
    if b != [] {
      ToFromBits(b[..|b| - 1]);
      assert b == b[..|b| - 1] + [b[|b| - 1]];
    }
  }

  /** Splitting a number at bit k splits its bit string. */
  lemma {:induction false} ToBitsConcat(hi: nat, lo: nat, n: nat, k: nat)
    requires lo < Pow2(k)
    ensures ToBits(Up(hi, k) + lo, n + k) == ToBits(hi, n) + ToBits(lo, k)
  {
    if k == 0 {
      assert ToBits(lo, 0) == [];
    } else {
      ToBitsConcat(hi, lo / 2, n, k - 1);
      assert ToBits(hi, n) + ToBits(lo / 2, k - 1) + [lo % 2 == 1] == ToBits(hi, n) + ToBits(lo, k);
    }
  }

  lemma {:induction false} FromBitsConcat(a: Bits, b: Bits)
    ensures FromBits(a + b) == Up(FromBits(a), |b|) + FromBits(b)
  {
    if b == [] {
      assert a + b == a;
    } else {
      FromBitsConcat(a, b[..|b| - 1]);
      assert (a + b)[..|a + b| - 1] == a + b[..|b| - 1];
    }
  }

  lemma {:induction false} OnesValue(n: nat)
    ensures ToBits(Pow2(n) - 1, n) == Ones(n)
  {
    if n > 0 {
      OnesValue(n - 1);
      assert (Pow2(n) - 1) / 2 == Pow2(n - 1) - 1;
      assert Ones(n - 1) + [true] == Ones(n);
    }
  }

  lemma {:induction false} ZerosValue(n: nat)
    ensures ToBits(0, n) == Zeros(n) && FromBits(Zeros(n)) == 0
  {
    if n > 0 {
      ZerosValue(n - 1);
      assert Zeros(n - 1) + [false] == Zeros(n);
      assert Zeros(n)[..n - 1] == Zeros(n - 1);
    }
  }

  /** Two ways to cut the same string in two. */
  lemma SplitAlike(s: Bits, t: Bits, b: Bits, rest: Bits)
    requires s + t == b + rest
    ensures |s| < |b| ==> b == s + t[..|b| - |s|]
    ensures |s| >= |b| ==> s == b + s[|b|..] && s[|b|..] + t == rest
  {
    if |s| < |b| {
      assert b == (s + t)[..|b|];
    } else {
      assert b == (s + t)[..|b|];
      assert rest == (s + t)[|b|..];
    }
  }

  // ----- unsigned 32-bit numbers

  /** x reduced to an unsigned 32-bit number, as every C assignment to one does. */
  function U32(x: int): (r: nat)
    ensures r < TWO_32
    decreases x < 0, if x < 0 then -x else x
  {
    if x < 0 then U32(x + TWO_32) else if x < TWO_32 then x else U32(x - TWO_32)
  }

  /** x << s on an unsigned 32-bit number. */
  function Shl32(x: nat, s: nat): (r: nat)
    ensures r < TWO_32
  {
    U32(Up(x, s))
  }

  // ----- C's shifts and masks on registers, as operations on their bits

  function ShiftLeft(w: Bits, s: nat): (r: Bits)
    requires s <= |w|
    ensures |r| == |w|
  {
    w[s..] + Zeros(s)
  }

  function ShiftRight(w: Bits, s: nat): (r: Bits)
    requires s <= |w|
    ensures |r| == |w|
  {
    Zeros(s) + w[..|w| - s]
  }

  function And(a: Bits, b: Bits): (r: Bits)
    requires |a| == |b|
    ensures |r| == |a|
  {
    seq(|a|, i requires 0 <= i < |a| => a[i] && b[i])
  }

  function Or(a: Bits, b: Bits): (r: Bits)
    requires |a| == |b|
    ensures |r| == |a|
  {
    seq(|a|, i requires 0 <= i < |a| => a[i] || b[i])
  }

  function Not(a: Bits): (r: Bits)
    ensures |r| == |a|
  {
    seq(|a|, i requires 0 <= i < |a| => !a[i])
  }
}
