/** The arithmetic behind the AD7616 decoder's shift register: the bitwise OR
    it applies to a single sampled bit, the fold its accumulation loop
    computes, and the big-endian reading of a bit string that the fold
    reconstructs. */
module BitFold {

  /** One sampled line level, as carried in the first slot of a bit record. */
  type Bit = x: nat | x < 2

  function Pow2(k: nat): (r: nat)
    ensures r >= 1
  {
    if k == 0 then 1 else 2 * Pow2(k - 1)
  }

  /** Bitwise OR of two non-negative integers. */
  function BitOr(a: nat, b: nat): (r: nat)
    ensures a <= r && b <= r
    ensures r <= a + b
    decreases a + b
  {
    if a == 0 && b == 0 then 0
    else 2 * BitOr(a / 2, b / 2) + (if a % 2 == 1 || b % 2 == 1 then 1 else 0)
  }

  lemma {:induction false} BitOrZero(x: nat)
    ensures BitOr(x, 0) == x
  {
    if x != 0 {
      BitOrZero(x / 2);
    }
  }

  /** OR-ing a single bit into an integer sets its lowest bit and touches
      nothing else: an even value grows by the bit, an odd one is unchanged. */
  lemma BitOrBit(a: nat, b: Bit)
    ensures BitOr(a, b) == if a % 2 == 1 then a else a + b
  {
    if a != 0 || b != 0 {
      BitOrZero(a / 2);
    }
  }

  function Reverse<T>(s: seq<T>): (r: seq<T>)
    ensures |r| == |s|
  {
    if s == [] then [] else Reverse(s[1..]) + [s[0]]
  }

  lemma {:induction false} ReverseAppend<T>(a: seq<T>, b: seq<T>)
    ensures Reverse(a + b) == Reverse(b) + Reverse(a)
  {
    if a == [] {
      assert a + b == b;
    } else {
      assert (a + b)[1..] == a[1..] + b;
      ReverseAppend(a[1..], b);
    }
  }

  lemma {:induction false} ReverseReverse<T>(s: seq<T>)
    ensures Reverse(Reverse(s)) == s
  {
    if s != [] {
      ReverseAppend(Reverse(s[1..]), [s[0]]);
      ReverseReverse(s[1..]);
      assert Reverse([s[0]]) == [s[0]];
    }
  }

  /** Reversing a suffix one element longer puts that element last. */
  lemma ReverseSuffix<T>(s: seq<T>, i: nat)
    requires 0 < i <= |s|
    ensures Reverse(s[i - 1..]) == Reverse(s[i..]) + [s[i - 1]]
  {
    assert s[i - 1..][1..] == s[i..];
  }

  /** The accumulator after each bit of `bits`, first to last, has been OR-ed
      into its low end and the accumulator shifted left by one. */
  function Acc(acc: nat, bits: seq<Bit>): nat
  {
    if bits == [] then acc
    else BitOr(Acc(acc, bits[..|bits| - 1]), bits[|bits| - 1]) * 2
  }

  /** The fold over one more bit is one more OR-and-shift step. */
  lemma AccSnoc(acc: nat, bits: seq<Bit>, b: Bit)
    ensures Acc(acc, bits + [b]) == BitOr(Acc(acc, bits), b) * 2
  {
    assert (bits + [b])[..|bits|] == bits;
  }

  /** Feeding two bit strings one after the other is one pass over their
      concatenation. */
  lemma {:induction false} AccAppend(acc: nat, s1: seq<Bit>, s2: seq<Bit>)
    ensures Acc(acc, s1 + s2) == Acc(Acc(acc, s1), s2)
  {
    if s2 == [] {
      assert s1 + s2 == s1;
    } else {
      var init := s2[..|s2| - 1];
      assert s2 == init + [s2[|s2| - 1]];
      assert s1 + s2 == (s1 + init) + [s2[|s2| - 1]];
      AccAppend(acc, s1, init);
      AccSnoc(acc, s1 + init, s2[|s2| - 1]);
      AccSnoc(Acc(acc, s1), init, s2[|s2| - 1]);
    }
  }

  /** The number a bit string denotes, first bit most significant. */
  function Val(bits: seq<Bit>): (r: nat)
    ensures r < Pow2(|bits|)
  {
    if bits == [] then 0 else 2 * Val(bits[..|bits| - 1]) + bits[|bits| - 1]
  }

  /** The `k` low bits of `n`, most significant first. */
  function Encode(n: nat, k: nat): (bits: seq<Bit>)
    ensures |bits| == k
  {
    if k == 0 then [] else Encode(n / 2, k - 1) + [n % 2]
  }

  lemma {:induction false} ValEncode(n: nat, k: nat)
    requires n < Pow2(k)
    ensures Val(Encode(n, k)) == n
  {
    if k != 0 {
      var e := Encode(n / 2, k - 1);
      assert (e + [n % 2])[..k - 1] == e;
      ValEncode(n / 2, k - 1);
    }
  }

  lemma {:induction false} EncodeVal(bits: seq<Bit>)
    ensures Encode(Val(bits), |bits|) == bits
  {
    if bits != [] {
      var init := bits[..|bits| - 1];
      EncodeVal(init);
      assert bits == init + [bits[|bits| - 1]];
    }
  }

  /** Starting from an even accumulator 2v, the fold appends the bits below
      v and leaves one extra trailing zero. */
  lemma {:induction false} AccScaled(v: nat, bits: seq<Bit>)
    ensures Acc(2 * v, bits) == 2 * (v * Pow2(|bits|) + Val(bits))
  {
    if bits != [] {
      var n := |bits|;
      var init := bits[..n - 1];
      AccScaled(v, init);
      var b := bits[n - 1];
      var p := Pow2(n - 1);
      var a := Acc(2 * v, init);
      assert a == 2 * (v * p + Val(init));
      Halves(v * p + Val(init));
      BitOrBit(a, b);
      assert Acc(2 * v, bits) == (a + b) * 2;
      assert Val(bits) == 2 * Val(init) + b;
      assert Pow2(n) == 2 * p;
      MulTwice(v, p);
    }
  }

  lemma Halves(k: nat)
    ensures (2 * k) % 2 == 0 && (2 * k) / 2 == k
  {
  }

  lemma MulTwice(v: nat, p: nat)
    ensures v * (2 * p) == 2 * (v * p)
  {
  }

  /** From a cleared accumulator the fold holds twice the value of the bits:
      it is even, and below 2^(k+1) after k bits, so halving it loses
      nothing and leaves a value below 2^k. */
  lemma AccFromZero(bits: seq<Bit>)
    ensures Acc(0, bits) == 2 * Val(bits)
    ensures Acc(0, bits) % 2 == 0
    ensures Acc(0, bits) < Pow2(|bits| + 1)
    ensures Acc(0, bits) / 2 == Val(bits) < Pow2(|bits|)
  {
    AccScaled(0, bits);
    Halves(Val(bits));
  }

  /** After at least one step the accumulator is even, whatever it held. */
  lemma AccEven(acc: nat, bits: seq<Bit>)
    requires acc % 2 == 0 || bits != []
    ensures Acc(acc, bits) % 2 == 0
  {
    if bits != [] {
      var x := BitOr(Acc(acc, bits[..|bits| - 1]), bits[|bits| - 1]);
      assert Acc(acc, bits) == 2 * x;
      Halves(x);
    }
  }
}
