/** Bitmaps kept as bytes, least significant bit first, as both the frame
    allocator and the file system keep them. */
module Bits {
  import opened Machine

  /** Bit `k` of `b`: whether `b & (1 << k)` is not 0. */
  predicate Test(b: nat, k: nat) {
    if k == 0 then b % 2 == 1 else Test(b / 2, k - 1)
  }

  /** `b | (1 << k)` */
  function With(b: nat, k: nat): nat {
    if k == 0 then (if b % 2 == 1 then b else b + 1) else 2 * With(b / 2, k - 1) + b % 2
  }

  /** `b & ~(1 << k)` */
  function Without(b: nat, k: nat): nat {
    if k == 0 then (if b % 2 == 1 then b - 1 else b) else 2 * Without(b / 2, k - 1) + b % 2
  }

  lemma {:induction false} WithTest(b: nat, k: nat, j: nat)
    ensures Test(With(b, k), j) == (j == k || Test(b, j))
    decreases k
  {
    if k > 0 {
      if j > 0 {
        WithTest(b / 2, k - 1, j - 1);
        assert With(b, k) / 2 == With(b / 2, k - 1);
      }
    } else if j > 0 {
      assert With(b, k) / 2 == b / 2;
    }
  }

  lemma {:induction false} WithoutTest(b: nat, k: nat, j: nat)
    ensures Test(Without(b, k), j) == (j != k && Test(b, j))
    decreases k
  {
    if k > 0 {
      if j > 0 {
        WithoutTest(b / 2, k - 1, j - 1);
        assert Without(b, k) / 2 == Without(b / 2, k - 1);
      }
    } else if j > 0 {
      assert Without(b, k) / 2 == b / 2;
    }
  }

  function Pow2(n: nat): nat {
    if n == 0 then 1 else 2 * Pow2(n - 1)
  }

  /** Bit `k` says whether the quotient by 2^k is odd. */
  lemma {:induction false} TestMeans(b: nat, k: nat) returns (q: nat, r: nat)
    ensures b == q * Pow2(k) + r && r < Pow2(k) && (Test(b, k) <==> q % 2 == 1)
    decreases k
  {
    if k == 0 {
      q, r := b, 0;
    } else {
      var h;
      q, h := TestMeans(b / 2, k - 1);
      r := 2 * h + b % 2;
      Doubled(q, Pow2(k - 1));
    }
  }

  lemma Doubled(q: nat, p: nat)
    ensures q * (2 * p) == 2 * (q * p)
  {
  }

  /** The bits below `n` are those of the remainder modulo 2^n. */
  lemma {:induction false} LowBits(q: nat, f: nat, n: nat, k: nat)
    requires k < n
    ensures Test(q * Pow2(n) + f, k) == Test(f, k)
    decreases n
  {
    var p := Pow2(n - 1);
    HalfSum(q, p, f);
    if k > 0 {
      LowBits(q, f / 2, n - 1, k - 1);
    }
  }

  lemma HalfSum(q: nat, p: nat, f: nat)
    ensures q * (2 * p) + f == 2 * (q * p) + f
    ensures (q * (2 * p) + f) / 2 == q * p + f / 2 && (q * (2 * p) + f) % 2 == f % 2
  {
    assert q * (2 * p) == 2 * (q * p);
    HalfOf(q * p, f);
  }

  lemma HalfOf(a: nat, f: nat)
    ensures (2 * a + f) / 2 == a + f / 2 && (2 * a + f) % 2 == f % 2
  {
  }

  /** Changing bit `k` of an `n`-bit number gives an `n`-bit number. */
  lemma {:induction false} WithBelow(b: nat, k: nat, n: nat)
    requires k < n && b < Pow2(n)
    ensures With(b, k) < Pow2(n)
  {
    var p := Pow2(n - 1);
    assert Pow2(n) == 2 * p && b / 2 < p;
    if k > 0 {
      WithBelow(b / 2, k - 1, n - 1);
    }
  }

  lemma {:induction false} WithoutBelow(b: nat, k: nat)
    ensures Without(b, k) <= b
  {
    if k > 0 {
      WithoutBelow(b / 2, k - 1);
    }
  }

  lemma PowerStep(n: nat)
    requires n > 0
    ensures Pow2(n) == 2 * Pow2(n - 1)
  {
  }

  lemma HalfOfOnes(b: nat, p: nat)
    requires b == 2 * p - 1
    ensures b % 2 == 1 && b / 2 == p - 1
  {
  }

  lemma {:induction false} OnesAreSet(b: nat, n: nat, j: nat)
    requires b == Pow2(n) - 1 && j < n
    ensures Test(b, j)
  {
    hide Pow2;
    PowerStep(n);
    HalfOfOnes(b, Pow2(n - 1));
    if j > 0 {
      OnesAreSet(b / 2, n - 1, j - 1);
    }
  }

  /** Any other `n`-bit number has a clear bit. */
  lemma {:induction false} ClearBitBelow(b: nat, n: nat) returns (j: nat)
    requires b < Pow2(n) - 1
    ensures j < n && !Test(b, j)
  {
    if b % 2 == 0 {
      j := 0;
    } else {
      j := ClearBitBelow(b / 2, n - 1);
      j := j + 1;
    }
  }

  lemma Pow2Eight()
    ensures Pow2(8) == 0x100
  {
  }

  function WithBit(b: byte, k: nat): byte
    requires k < 8
  {
    Pow2Eight();
    WithBelow(b, k, 8);
    With(b, k)
  }

  function WithoutBit(b: byte, k: nat): byte
    requires k < 8
  {
    WithoutBelow(b, k);
    Without(b, k)
  }

  lemma WithBitTest(b: byte, k: nat, j: nat)
    requires k < 8
    ensures Test(WithBit(b, k), j) == (j == k || Test(b, j))
  {
    WithTest(b, k, j);
  }

  lemma WithoutBitTest(b: byte, k: nat, j: nat)
    requires k < 8
    ensures Test(WithoutBit(b, k), j) == (j != k && Test(b, j))
  {
    WithoutTest(b, k, j);
  }

  /** A byte is 0xFF exactly if all of its bits are set. */
  lemma FullByte(b: byte)
    ensures b == 0xFF <==> forall j: nat | j < 8 :: Test(b, j)
  {
    Pow2Eight();
    if b == 0xFF {
      forall j: nat | j < 8
        ensures Test(b, j)
      {
        OnesAreSet(b, 8, j);
      }
    } else {
      var j := ClearBitBelow(b, 8);
    }
  }

  lemma {:induction false} ZeroByte(k: nat)
    ensures !Test(0, k)
  {
    if k > 0 {
      ZeroByte(k - 1);
    }
  }

  /** Bit `n` of the bitmap. */
  predicate Bit(m: seq<byte>, n: nat)
    requires n / 8 < |m|
  {
    Test(m[n / 8], n % 8)
  }

  function SetBit(m: seq<byte>, n: nat): (r: seq<byte>)
    requires n / 8 < |m|
    ensures |r| == |m|
  {
    m[n / 8 := WithBit(m[n / 8], n % 8)]
  }

  function ClearBit(m: seq<byte>, n: nat): (r: seq<byte>)
    requires n / 8 < |m|
    ensures |r| == |m|
  {
    m[n / 8 := WithoutBit(m[n / 8], n % 8)]
  }

  /** Setting a bit changes that bit alone. */
  lemma SetBitEffect(m: seq<byte>, n: nat)
    requires n / 8 < |m|
    ensures forall j: nat {:trigger Bit(SetBit(m, n), j)} | j < 8 * |m| :: Bit(SetBit(m, n), j) == (j == n || Bit(m, j))
  {
    hide WithBit;
    forall j: nat | j < 8 * |m|
      ensures Bit(SetBit(m, n), j) == (j == n || Bit(m, j))
    {
      if j / 8 == n / 8 {
        WithBitTest(m[n / 8], n % 8, j % 8);
      }
    }
  }

  /** Clearing a bit changes that bit alone. */
  lemma ClearBitEffect(m: seq<byte>, n: nat)
    requires n / 8 < |m|
    ensures forall j: nat {:trigger Bit(ClearBit(m, n), j)} | j < 8 * |m| ::
      Bit(ClearBit(m, n), j) == (j != n && Bit(m, j))
  {
    hide WithoutBit;
    forall j: nat | j < 8 * |m|
      ensures Bit(ClearBit(m, n), j) == (j != n && Bit(m, j))
    {
      if j / 8 == n / 8 {
        WithoutBitTest(m[n / 8], n % 8, j % 8);
      }
    }
  }

  /** A byte equal to 0xFF has all of its eight bits set in the bitmap. */
  lemma FullByteBits(m: seq<byte>, i: nat)
    requires i < |m|
    ensures m[i] == 0xFF <==> forall j: nat | 8 * i <= j < 8 * i + 8 :: Bit(m, j)
  {
    FullByte(m[i]);
    forall j: nat | 8 * i <= j < 8 * i + 8
      ensures Bit(m, j) == Test(m[i], j - 8 * i)
    {
      assert j / 8 == i && j % 8 == j - 8 * i;
    }
    if m[i] == 0xFF {
      Pow2Eight();
      forall j: nat | 8 * i <= j < 8 * i + 8
        ensures Bit(m, j)
      {
        OnesAreSet(m[i], 8, j - 8 * i);
      }
    } else {
      var k: nat :| k < 8 && !Test(m[i], k);
      assert Bit(m, 8 * i + k) == Test(m[i], 8 * i + k - 8 * i);
      assert 8 * i + k - 8 * i == k;
      assert !Bit(m, 8 * i + k);
    }
  }

  predicate Within(n: nat, bound: nat) {
    n < bound
  }

  /** The first `bound` naturals. */
  ghost function Below(bound: nat): set<nat> {
    set n: nat | n < bound && Within(n, bound)
  }

  lemma {:induction false} CountBelow(bound: nat)
    ensures |Below(bound)| == bound
  {
    if bound > 0 {
      CountBelow(bound - 1);
      assert Below(bound) == Below(bound - 1) + {bound - 1};
    }
  }
}
