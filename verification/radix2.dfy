/** Index logic of the radix-2 FFT in fft.kt: the power-of-two test, `nextPowerOfTwo`, and
    the bit-reversal pass that reorders the complex pairs after the butterflies. */
module Radix2 {
  import opened Numerics

  /** Bitwise AND of two non-negative integers, defined bit by bit from the least
      significant end. On non-negative `Int`s it agrees with Kotlin's `and`. */
  function BitAnd(a: nat, b: nat): nat
    decreases a
  {
    if a == 0 || b == 0 then 0 else 2 * BitAnd(a / 2, b / 2) + (a % 2) * (b % 2)
  }

  /** Reference definition of a power of two: 1, or an even number whose half is one. */
  predicate IsPow2(n: int)
    decreases if n > 0 then n else 0
  {
    n == 1 || (n > 1 && n % 2 == 0 && IsPow2(n / 2))
  }

  /** `isPowerOfTwo`: the source's bit trick. `number - 1` is only evaluated when
      `number > 0`, so it never leaves the `Int` range. */
  predicate IsPowerOfTwo(number: Int32) {
    number > 0 && BitAnd(number, number - 1) == 0
  }

  lemma BitAndSelf(a: nat)
    ensures BitAnd(a, a) == a
  {
  }

  /** The bit trick decides exactly the powers of two. */
  lemma {:induction false} IsPowerOfTwoIsPow2(n: Int32)
    ensures IsPowerOfTwo(n) <==> IsPow2(n)
    decreases if n > 0 then n else 0
  {
    if n <= 1 {
      // n == 1: BitAnd(1, 0) == 0; n <= 0: both sides are false
    } else if n % 2 == 1 {
      // the lowest bit survives the AND: (2q+1) AND 2q == 2q
      var q := n / 2;
      BitAndSelf(q);
      BitAndOdd(n, q);
      assert !IsPow2(n);
    } else {
      var m := n / 2;
      BitAndEven(n, m);
      IsPowerOfTwoIsPow2(m);
    }
  }

  lemma BitAndOdd(n: nat, q: nat)
    requires n == 2 * q + 1 && q >= 1
    ensures BitAnd(n, n - 1) == 2 * BitAnd(q, q)
  {
    assert n / 2 == q && (n - 1) / 2 == q;
  }

  lemma BitAndEven(n: nat, m: nat)
    requires n == 2 * m && m >= 1
    ensures BitAnd(n, n - 1) == 2 * BitAnd(m, m - 1)
  {
    assert n / 2 == m && (n - 1) / 2 == m - 1 && n % 2 == 0;
  }

  lemma Pow2IsPow2(k: nat)
    ensures IsPow2(Pow2(k))
  {
  }

  lemma Pow2Add(a: nat, b: nat)
    ensures Pow2(a + b) == Pow2(a) * Pow2(b)
  {
    if a > 0 {
      Pow2Add(a - 1, b);
    }
  }

  lemma Pow2Of30()
    ensures Pow2(30) == 0x4000_0000 && IsPow2(0x4000_0000) && IsPow2(0x8000_0000)
  {
    assert Pow2(5) == 32;
    Pow2Add(5, 5);
    Pow2Add(10, 10);
    Pow2Add(20, 10);
    Pow2IsPow2(30);
    Pow2IsPow2(31);
  }

  /** Of two powers of two, the larger is at least twice the smaller unless they are equal. */
  lemma {:induction false} Pow2Gap(x: int, p: int)
    requires IsPow2(x) && IsPow2(p) && x > p / 2
    ensures x >= p
    decreases p
  {
    if p > 1 {
      assert x != 1;
      Pow2Gap(x / 2, p / 2);
    }
  }

  /** The smallest power of two that is at least n. */
  function CeilPow2(n: int): (p: nat)
    ensures IsPow2(p) && p >= n
    ensures p == 1 || p / 2 < n
    decreases if n > 1 then n else 0
  {
    if n <= 1 then 1 else 2 * CeilPow2((n + 1) / 2)
  }

  /** No power of two at least n lies below `CeilPow2(n)`. */
  lemma CeilPow2Least(n: int, x: int)
    requires IsPow2(x) && x >= n
    ensures CeilPow2(n) <= x
  {
    var p := CeilPow2(n);
    if p > 1 {
      Pow2Gap(x, p);
    }
  }

  /** `nextPowerOfTwo`: `2.0.pow(ceil(log2(n))).toInt()`. For n <= 0 the logarithm is -∞
      or NaN and the result is 0; otherwise it is the least power of two at least n,
      saturated to `Int.MAX_VALUE` when that power is 2^31. */
  function NextPowerOfTwo(n: Int32): (r: Int32)
  {
    if n <= 0 then 0 else SatInt32(CeilPow2(n))
  }

  lemma NextPowerOfTwoSpec(n: Int32)
    ensures n <= 0 ==> NextPowerOfTwo(n) == 0
    ensures 0 < n <= 0x4000_0000 ==>
      var r := NextPowerOfTwo(n);
      IsPow2(r) && r >= n && (forall x :: IsPow2(x) && x >= n ==> r <= x)
    ensures 0x4000_0000 < n ==> NextPowerOfTwo(n) == INT_MAX
  {
    if 0 < n <= 0x4000_0000 {
      Pow2Of30();
      CeilPow2Least(n, 0x4000_0000);
      forall x | IsPow2(x) && x >= n
        ensures CeilPow2(n) <= x
      {
        CeilPow2Least(n, x);
      }
    } else if 0x4000_0000 < n {
      var p := CeilPow2(n);
      Pow2Of30();
      if p <= INT_MAX {
        Pow2Gap(p, 0x8000_0000);
      }
    }
  }

  /** `nextPowerOfTwo(n) == n` (the test SpectrogramDataProcessing uses to choose between
      the radix-2 FFT and Bluestein) holds exactly for powers of two, for every positive n
      below `Int.MAX_VALUE`. */
  lemma {:induction false} NextPowerOfTwoFixedPoint(n: Int32)
    requires 0 < n < INT_MAX
    ensures NextPowerOfTwo(n) == n <==> IsPowerOfTwo(n)
  {
    IsPowerOfTwoIsPow2(n);
    NextPowerOfTwoSpec(n);
    if IsPow2(n) {
      CeilPow2Least(n, n);
    }
  }

  /** The low `bits` bits of i in reverse order. */
  function Rev(i: nat, bits: nat): (r: nat)
    ensures r < Pow2(bits)
  {
    if bits == 0 then 0 else (if i % 2 == 1 then Pow2(bits - 1) else 0) + Rev(i / 2, bits - 1)
  }

  lemma RevZero(bits: nat)
    ensures Rev(0, bits) == 0
  {
  }

  lemma DivModPow2(i: nat, p: nat)
    requires p >= 1
    ensures (i % (2 * p)) % 2 == i % 2
    ensures (i % (2 * p)) / 2 == (i / 2) % p
    ensures i / (2 * p) == (i / 2) / p
  {
    var h := i / 2;
    var q := h / p;
    var r := h % p;
    assert i == q * (2 * p) + (2 * r + i % 2);
    DivModUnique(i, 2 * p, q, 2 * r + i % 2);
  }

  lemma MulAtLeast(a: int, d: nat)
    requires a >= 1
    ensures a * d >= d
  {
  }

  lemma DivModUnique(x: nat, d: nat, q: nat, r: nat)
    requires d > 0 && x == q * d + r && r < d
    ensures x / d == q && x % d == r
  {
    var q', r' := x / d, x % d;
    assert x == q' * d + r';
    if q > q' {
      MulAtLeast(q - q', d);
      assert false;
    } else if q < q' {
      MulAtLeast(q' - q, d);
      assert false;
    }
  }

  /** The highest of the `bits` bits of i becomes the lowest bit of its reversal. */
  lemma {:induction false} RevTop(i: nat, bits: nat)
    requires bits >= 1 && i < Pow2(bits)
    ensures Rev(i, bits) == 2 * Rev(i % Pow2(bits - 1), bits - 1) + i / Pow2(bits - 1)
  {
    if bits > 1 {
      var p := Pow2(bits - 2);
      assert Pow2(bits - 1) == 2 * p;
      RevTop(i / 2, bits - 1);
      DivModPow2(i, p);
    }
  }

  /** Reversing twice gives the index back. */
  lemma {:induction false} RevInvolution(i: nat, bits: nat)
    requires i < Pow2(bits)
    ensures Rev(Rev(i, bits), bits) == i
  {
    if bits > 0 {
      var p := Pow2(bits - 1);
      var top, low := if i < p then 0 else 1, if i < p then i else i - p;
      DivModUnique(i, p, top, low);
      var r := Rev(i, bits);
      RevTop(i, bits);
      assert r == 2 * Rev(low, bits - 1) + top;
      DivModUnique(r, 2, Rev(low, bits - 1), top);
      RevInvolution(low, bits - 1);
      calc {
        Rev(r, bits);
        (if r % 2 == 1 then p else 0) + Rev(r / 2, bits - 1);
        top * p + Rev(Rev(low, bits - 1), bits - 1);
        top * p + low;
        i;
      }
    }
  }

  lemma {:induction false} RevAllOnes(bits: nat)
    ensures Rev(Pow2(bits) - 1, bits) == Pow2(bits) - 1
  {
    if bits > 0 {
      assert (Pow2(bits) - 1) / 2 == Pow2(bits - 1) - 1;
      RevAllOnes(bits - 1);
    }
  }

  /** The update of `j` inside the bit-reversal loop: clear the leading ones from the top
      bit `k` downwards (`while (k <= j) { j -= k; k = k shr 1 }`), then set the first
      clear bit (`j += k`). Without the bound on j the source loop would never stop. */
  function RevInc(j: nat, k: nat): nat
    requires IsPow2(k) && j < 2 * k - 1
    decreases k
  {
    if k <= j then RevInc(j - k, k / 2) else j + k
  }

  /** Only the last index reverses to the all-ones index. */
  lemma RevNotAllOnes(i: nat, bits: nat)
    requires i < Pow2(bits) - 1
    ensures Rev(i, bits) < Pow2(bits) - 1
  {
    if Rev(i, bits) == Pow2(bits) - 1 {
      RevInvolution(i, bits);
      RevAllOnes(bits);
      assert false;
    }
  }

  /** One step of the source's `j` update turns the reversal of i into the reversal of
      i + 1, as long as i is not the last index. */
  lemma {:induction false} RevIncStep(i: nat, bits: nat)
    requires bits >= 1 && i < Pow2(bits) - 1
    ensures Rev(i, bits) < Pow2(bits) - 1
    ensures IsPow2(Pow2(bits - 1))
    ensures RevInc(Rev(i, bits), Pow2(bits - 1)) == Rev(i + 1, bits)
  {
    Pow2IsPow2(bits - 1);
    RevNotAllOnes(i, bits);
    if i % 2 == 0 {
      RevIncEven(i, bits);
    } else {
      var h := i / 2;
      assert bits > 1 && h < Pow2(bits - 1) - 1 by {
        assert Pow2(1) == 2;
        assert Pow2(bits) == 2 * Pow2(bits - 1);
      }
      RevIncStep(h, bits - 1);
      RevIncOdd(i, bits);
    }
  }

  /** An even index has its top reversed bit clear; the next index sets it. */
  lemma RevIncEven(i: nat, bits: nat)
    requires bits >= 1 && i % 2 == 0 && Rev(i, bits) < Pow2(bits) - 1 && IsPow2(Pow2(bits - 1))
    ensures RevInc(Rev(i, bits), Pow2(bits - 1)) == Rev(i + 1, bits)
  {
    var k := Pow2(bits - 1);
    assert (i + 1) % 2 == 1 && (i + 1) / 2 == i / 2;
    assert Rev(i, bits) == Rev(i / 2, bits - 1) < k;
    assert Rev(i + 1, bits) == k + Rev(i / 2, bits - 1);
  }

  /** An odd index has its top reversed bit set: the step clears it and carries into the
      reversal of i / 2. */
  lemma RevIncOdd(i: nat, bits: nat)
    requires bits > 1 && i % 2 == 1 && Rev(i, bits) < Pow2(bits) - 1 && IsPow2(Pow2(bits - 1))
    requires Rev(i / 2, bits - 1) < Pow2(bits - 1) - 1 && IsPow2(Pow2(bits - 2))
    requires RevInc(Rev(i / 2, bits - 1), Pow2(bits - 2)) == Rev(i / 2 + 1, bits - 1)
    ensures RevInc(Rev(i, bits), Pow2(bits - 1)) == Rev(i + 1, bits)
  {
    var k := Pow2(bits - 1);
    var j := Rev(i, bits);
    assert j == k + Rev(i / 2, bits - 1);
    assert k / 2 == Pow2(bits - 2);
    assert RevInc(j, k) == RevInc(j - k, k / 2);
    assert (i + 1) % 2 == 0 && (i + 1) / 2 == i / 2 + 1;
    assert Rev(i + 1, bits) == Rev(i / 2 + 1, bits - 1);
  }

  /** Reference definition of the bit-reversal reordering of n = 2^bits elements: element
      c of the result is element Rev(c) of the input. */
  function BitReversed<T>(a: seq<T>, bits: nat): (r: seq<T>)
    requires |a| == Pow2(bits)
    ensures |r| == |a|
    ensures forall c :: 0 <= c < |a| ==> r[c] == a[Rev(c, bits)]
  {
    seq(|a|, c requires 0 <= c < |a| => a[Rev(c, bits)])
  }

  /** Element c after the first i steps of the bit-reversal loop: in its final place if its
      index or its reversed index is below i, untouched otherwise. */
  ghost predicate PlacedAfter<T>(r: seq<T>, a: seq<T>, bits: nat, i: nat, c: nat)
    requires |r| == |a| == Pow2(bits) && c < |a|
  {
    if Min(c, Rev(c, bits)) < i then r[c] == a[Rev(c, bits)] else r[c] == a[c]
  }

  ghost predicate ReversedBelow<T>(r: seq<T>, a: seq<T>, bits: nat, i: nat)
    requires |r| == |a| == Pow2(bits)
  {
    forall c :: 0 <= c < |a| ==> PlacedAfter(r, a, bits, i, c)
  }

  /** One iteration of the loop body, for one element c: the swap of elements i and Rev(i)
      when i < Rev(i) leaves c in the state the next iteration expects. */
  lemma ReversedStepAt<T>(r: seq<T>, a: seq<T>, bits: nat, i: nat, c: nat)
    requires |r| == |a| == Pow2(bits) && i < |a| && c < |a|
    requires ReversedBelow(r, a, bits, i)
    ensures var j := Rev(i, bits);
      var r' := if i < j then r[i := r[j]][j := r[i]] else r;
      PlacedAfter(r', a, bits, i + 1, c)
  {
    var j := Rev(i, bits);
    RevInvolution(i, bits);
    RevInvolution(c, bits);
    assert PlacedAfter(r, a, bits, i, c);
    if c == i {
      assert PlacedAfter(r, a, bits, i, j);
    } else if c == j {
      assert PlacedAfter(r, a, bits, i, i);
    } else {
      assert Rev(c, bits) != i;
    }
  }

  /** One pass of the outer loop places index i. */
  lemma ReversedStep<T>(r: seq<T>, a: seq<T>, bits: nat, i: nat, r': seq<T>)
    requires |r| == |a| == Pow2(bits) && i < |a|
    requires ReversedBelow(r, a, bits, i)
    requires var j := Rev(i, bits);
      r' == if i < j then r[i := r[j]][j := r[i]] else r
    ensures |r'| == |a| && ReversedBelow(r', a, bits, i + 1)
  {
    var i' := i + 1;
    forall c | 0 <= c < |a|
      ensures PlacedAfter(r', a, bits, i', c)
    {
      ReversedStepAt(r, a, bits, i, c);
    }
  }

  /** After the last pass every element is in its reversed place. */
  lemma ReversedAtEnd<T>(r: seq<T>, a: seq<T>, bits: nat)
    requires |r| == |a| == Pow2(bits) && ReversedBelow(r, a, bits, |a| - 1)
    ensures r == BitReversed(a, bits)
  {
    forall c | 0 <= c < |a|
      ensures r[c] == a[Rev(c, bits)]
    {
      LastFixed(c, bits);
      assert PlacedAfter(r, a, bits, |a| - 1, c);
    }
  }

  /** Only the last element can have the last element as its reversal, and it does. */
  lemma LastFixed(c: nat, bits: nat)
    requires c < Pow2(bits)
    ensures Min(c, Rev(c, bits)) < Pow2(bits) - 1 || Rev(c, bits) == c
  {
    RevInvolution(c, bits);
    if c == Pow2(bits) - 1 {
      RevAllOnes(bits);
    }
  }

  /** The source's inner loop: from the reversal of i, the reversal of i + 1. */
  method NextReversed(i: nat, j: nat, n: nat, bits: nat) returns (j': nat)
    requires n == Pow2(bits) && i < n - 1 && j == Rev(i, bits)
    ensures j' == Rev(i + 1, bits)
  {
    assert bits != 0;
    RevIncStep(i, bits);
    var k: nat := n / 2;
    assert k == Pow2(bits - 1);
    j' := j;
    while k <= j'
      invariant IsPow2(k) && j' < 2 * k - 1
      invariant RevInc(j', k) == Rev(i + 1, bits)
      decreases k
    {
      j' := j' - k;
      k := k / 2;
    }
    j' := j' + k;
  }

  /** The bit-reversal loop of `fft` / `iFFT` (fft.kt) on the n = 2^bits complex pairs:
      pair i trades places with pair j whenever i < j, and j follows i through the
      reversed-carry update. It produces the reference reordering. */
  method BitReversePass<T>(a: seq<T>, n: nat, bits: nat) returns (r: seq<T>)
    requires n == Pow2(bits) == |a|
    ensures r == BitReversed(a, bits)
  {
    r := a;
    RevZero(bits);
    var j: nat := 0;
    var i: nat := 0;
    while i < n - 1
      invariant i <= n - 1
      invariant j == Rev(i, bits)
      invariant |r| == |a|
      invariant ReversedBelow(r, a, bits, i)
      decreases n - i
    {
      var next := if i < j then r[i := r[j]][j := r[i]] else r;
      ReversedStep(r, a, bits, i, next);
      r := next;
      j := NextReversed(i, j, n, bits);
      i := i + 1;
    }
    ReversedAtEnd(r, a, bits);
  }
}
