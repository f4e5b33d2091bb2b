/** Transfer statistics of the DMA driver: a running average kept with two truncating divisions per sample. */
module SpeedStats {

  const NSEC_PER_SEC: nat := 1_000_000_000
  const U32: nat := 0x1_0000_0000
  const U64: nat := 0x1_0000_0000_0000_0000

  // ----- The speed of one transfer -----

  /** What the division divides by: the low 32 bits of the time. */
  function Divisor(time: int): nat { time % U32 }

  /** Bytes per second; the product is computed in 64 bits. */
  function Speed(len: nat, time: int): nat
    requires Divisor(time) > 0
  {
    len * NSEC_PER_SEC % U64 / Divisor(time)
  }

  /**
   The product fits 64 bits for every 32-bit length. The speed is the exact quotient, rounded down, if and only
   if the time was not cut or the quotient by the cut time is zero anyway.
   */
  lemma SpeedIsExact(len: nat, time: nat)
    requires len < U32 && Divisor(time) > 0
    ensures len * NSEC_PER_SEC < U64
    ensures Speed(len, time) == len * NSEC_PER_SEC / time <==> time < U32 || len * NSEC_PER_SEC < Divisor(time)
  {
    var x := len * NSEC_PER_SEC;
    assert x < U64 && x % U64 == x;
    CutQuotient(x, time, Divisor(time));
  }

  lemma CutQuotient(x: nat, time: nat, d: nat)
    requires d == time % U32 && d > 0
    ensures x / d == x / time <==> time < U32 || x < d
  {
    if time < U32 {
      assert d == time;
    } else if x < d {
      SmallQuotient(x, d);
      SmallQuotient(x, time);
    } else {
      CutQuotientLarger(x, d, time);
    }
  }

  lemma CutQuotientLarger(x: nat, d: nat, time: nat)
    requires 0 < d < U32 && d + U32 <= time && d <= x
    ensures x / d > x / time
  {
    var p := Quotient(x, d);
    var q := Quotient(x, time);
    LongerTimeDivides(x, d, time, p, q);
  }

  lemma Quotient(x: nat, n: nat) returns (q: nat)
    requires n > 0
    ensures q == x / n && n * q <= x < n * q + n
  {
    q := x / n;
    DivideBounds(x, n);
  }

  lemma SmallQuotient(x: nat, n: nat)
    requires x < n
    ensures x / n == 0
  {
  }

  /** `p` and `q` are the quotients of `x` by the cut time and by the time. */
  lemma LongerTimeDivides(x: nat, d: nat, time: nat, p: nat, q: nat)
    requires 0 < d < U32 && d + U32 <= time && d <= x
    requires d * p <= x < d * p + d && time * q <= x
    ensures p > q
  {
    if q == 0 {
      PositiveFactor(d, p);
    } else {
      ProductGrows(q, d + U32, time);
      LargerQuotient(d, time, p, q, x);
    }
  }

  lemma PositiveFactor(d: nat, p: nat)
    requires d * p > 0
    ensures p > 0
  {
  }

  lemma LargerQuotient(d: nat, time: nat, p: nat, q: nat, x: nat)
    requires d < U32 && q > 0 && (d + U32) * q <= time * q && time * q <= x < d * p + d
    ensures p > q
  {
    assert (d + U32) * q == d * q + U32 * q;
    assert d * (p + 1 - q) == d * p + d - d * q;
    BeyondOne(d, p + 1 - q);
  }

  lemma BeyondOne(d: nat, m: int)
    requires d * m > d
    ensures m > 1
  {
    if m <= 1 {
      assert d * m == d - d * (1 - m);
      ProductGrows(d, 0, 1 - m);
    }
  }

  lemma ProductGrows(m: nat, p: nat, q: nat)
    requires p <= q
    ensures m * p <= m * q
    ensures p * m <= q * m
  {
    assert m * q == m * p + m * (q - p);
  }

  lemma DivideBounds(x: nat, n: nat)
    requires n > 0
    ensures n * (x / n) <= x < n * (x / n) + n
  {
    assert x == n * (x / n) + x % n;
  }

  // ----- The average -----

  /** One update of the average in words of modulus `w`, `n` counting the new sample. */
  function Update(avg: nat, n: nat, last: nat, w: nat): nat
    requires n > 0 && w > 0
  {
    Floors(avg * (n - 1) % w, last, n)
  }

  /** Each term is divided on its own. */
  function Floors(x: nat, y: nat, n: nat): nat
    requires n > 0
  {
    x / n + y / n
  }

  /** The average after the given samples. */
  function Average(samples: seq<nat>, w: nat): nat
    requires w > 0
    decreases |samples|
  {
    if samples == [] then 0
    else Update(Average(samples[..|samples| - 1], w), |samples|, samples[|samples| - 1], w)
  }

  function Sum(samples: seq<nat>): nat
    decreases |samples|
  {
    if samples == [] then 0 else Sum(samples[..|samples| - 1]) + samples[|samples| - 1]
  }

  /** The product computed for the sample after the first `k` fits a word. */
  ghost predicate Fits(samples: seq<nat>, w: nat, k: nat)
    requires w > 0 && k <= |samples|
  {
    Average(samples[..k], w) * k < w
  }

  /** No product wraps around. */
  ghost predicate NoWrap(samples: seq<nat>, w: nat)
    requires w > 0
  {
    forall k | 0 <= k < |samples| :: Fits(samples, w, k)
  }

  /** `a` is at most the mean of `n` samples with sum `s`, and less than `n` below it. */
  ghost predicate CloseToMean(n: nat, a: nat, s: nat) {
    n * a <= s <= n * a + n * (n - 1)
  }

  ghost predicate CloseAt(samples: seq<nat>, w: nat, k: nat)
    requires w > 0 && k <= |samples|
  {
    CloseToMean(k, Average(samples[..k], w), Sum(samples[..k]))
  }

  lemma TwoRemainders(x: nat, y: nat, n: nat)
    requires n > 0
    ensures n * Floors(x, y, n) + (x % n + y % n) == x + y
  {
    assert x == n * (x / n) + x % n;
    assert y == n * (y / n) + y % n;
    assert n * (x / n + y / n) == n * (x / n) + n * (y / n);
  }

  /** Two floors lose less than two units of the sum per division. */
  lemma TwoFloors(x: nat, y: nat, n: nat)
    requires n > 0
    ensures n * Floors(x, y, n) <= x + y <= n * Floors(x, y, n) + 2 * (n - 1)
  {
    DivideBounds(x, n);
    DivideBounds(y, n);
    assert n * (x / n + y / n) == n * (x / n) + n * (y / n);
  }

  lemma Wraps(x: nat, w: nat)
    requires w > 0
    ensures if x < w then x % w == x else x % w <= x - w
  {
    if x >= w {
      assert x == w * (x / w) + x % w;
      assert x / w >= 1;
      ProductGrows(w, 1, x / w);
    }
  }

  lemma UpdateBounds(x: nat, n: nat, last: nat, w: nat)
    requires n > 0 && x < w
    ensures var a := Floors(x % w, last, n);
            n * a <= x + last <= n * a + 2 * (n - 1)
  {
    Wraps(x, w);
    TwoFloors(x, last, n);
  }

  lemma OneMoreSample(n: nat, b: nat, s: nat, a: nat, last: nat)
    requires n > 0 && CloseToMean(n - 1, b, s)
    requires n * a <= b * (n - 1) + last <= n * a + 2 * (n - 1)
    ensures CloseToMean(n, a, s + last)
  {
    assert (n - 1) * b == b * (n - 1);
    assert n * (n - 1) == (n - 1) * (n - 2) + 2 * (n - 1);
  }

  lemma Prefix(samples: seq<nat>, k: nat)
    requires 0 < k <= |samples|
    ensures samples[..k][..k - 1] == samples[..k - 1]
  {
  }

  /** While no product wraps, the average never exceeds the mean and lags it by less than the number of samples. */
  lemma {:induction false} AverageBounds(samples: seq<nat>, w: nat, n: nat)
    requires w > 0 && n <= |samples| && forall k | 0 <= k < n :: Fits(samples, w, k)
    ensures CloseAt(samples, w, n)
  {
    if n > 0 {
      Prefix(samples, n);
      AverageBounds(samples, w, n - 1);
      var b, last := Average(samples[..n - 1], w), samples[n - 1];
      assert Fits(samples, w, n - 1);
      UpdateBounds(b * (n - 1), n, last, w);
      OneMoreSample(n, b, Sum(samples[..n - 1]), Average(samples[..n], w), last);
    }
  }

  /** The first product that wraps takes the average too far below the mean. */
  lemma WrapBreaksBound(samples: seq<nat>, w: nat, n: nat)
    requires 0 < n <= |samples| && n * (n - 1) < w
    requires CloseAt(samples, w, n - 1) && !Fits(samples, w, n - 1)
    ensures !CloseAt(samples, w, n)
  {
    Prefix(samples, n);
    var b, last := Average(samples[..n - 1], w), samples[n - 1];
    var x := b * (n - 1);
    assert x == (n - 1) * b;
    Wraps(x, w);
    TwoFloors(x % w, last, n);
  }

  /**
   The average is close to the mean after every sample if and only if no product wraps around, as long as
   there are fewer samples than the square root of the word.
   */
  lemma CloseIffNoWrap(samples: seq<nat>, w: nat)
    requires w > 0 && |samples| * (|samples| - 1) < w
    ensures NoWrap(samples, w) <==> forall n | 0 <= n <= |samples| :: CloseAt(samples, w, n)
  {
    if NoWrap(samples, w) {
      forall n | 0 <= n <= |samples|
        ensures CloseAt(samples, w, n)
      {
        AverageBounds(samples, w, n);
      }
    } else {
      var k :| 0 <= k < |samples| && !Fits(samples, w, k);
      if CloseAt(samples, w, k) {
        ProductGrows(k + 1, k, |samples| - 1);
        ProductGrows(|samples| - 1, k + 1, |samples|);
        WrapBreaksBound(samples, w, k + 1);
      }
    }
  }

  /** What the divisions of all updates have left over. */
  function LeftOver(samples: seq<nat>, w: nat): nat
    requires w > 0
    decreases |samples|
  {
    if samples == [] then 0 else
    var n := |samples|;
    var rest := samples[..n - 1];
    LeftOver(rest, w) + (Average(rest, w) * (n - 1) % w % n + samples[n - 1] % n)
  }

  lemma WrapAccounts(x: nat, n: nat, last: nat, w: nat, left: nat, s: nat)
    requires n > 0 && w > 0 && x + left <= s
    ensures var total := Floors(x % w, last, n) * n + (left + (x % w % n + last % n));
            total <= s + last && (total == s + last <==> x + left == s && x < w)
  {
    var y := x % w;
    Wraps(x, w);
    TwoRemainders(y, last, n);
    Commutes(n, Floors(y, last, n));
    AddLeft(n * Floors(y, last, n), y % n + last % n, y + last, left);
  }

  lemma AddLeft(p: int, lost: int, sum: int, left: int)
    requires p + lost == sum
    ensures p + (left + lost) == sum + left
  {
  }

  lemma Commutes(x: int, y: int)
    ensures x * y == y * x
  {
  }

  /** The average times the number of samples, plus all remainders. */
  function Total(samples: seq<nat>, w: nat): nat
    requires w > 0
  {
    Average(samples, w) * |samples| + LeftOver(samples, w)
  }

  /**
   For any number of samples: the average and the remainders make up the sum of the samples if and only if no
   product wraps around; else they fall short of it.
   */
  lemma {:induction false} AccountedIffNoWrap(samples: seq<nat>, w: nat)
    requires w > 0
    ensures Total(samples, w) <= Sum(samples)
    ensures NoWrap(samples, w) <==> Total(samples, w) == Sum(samples)
    decreases |samples|
  {
    var n := |samples|;
    if n > 0 {
      var rest, last := samples[..n - 1], samples[n - 1];
      assert samples == rest + [last];
      AccountedIffNoWrap(rest, w);
      NoWrapAppend(rest, last, w);
      WrapAccounts(Average(rest, w) * (n - 1), n, last, w, LeftOver(rest, w), Sum(rest));
    }
  }

  /** A product can wrap: three samples of the largest speed a word holds. */
  lemma OverflowBreaksBound()
    ensures var s := [U32 - 1, U32 - 1, U32 - 1]; !NoWrap(s, U32) && !CloseToMean(3, Average(s, U32), Sum(s))
  {
    var m := U32 - 1;
    var s1, s2, s3 := [m], [m, m], [m, m, m];
    assert s1[..0] == [] && s2[..1] == s1 && s3[..2] == s2;
    assert Average(s1, U32) == m;
    assert Average(s2, U32) == m / 2 + m / 2;
    assert Sum(s1) == m && Sum(s2) == 2 * m && Sum(s3) == 3 * m;
    assert !Fits(s3, U32, 2);
  }

  // ----- The counters -----

  /** The counters of one direction. */
  class DirectionStats {
    const word: nat
    var speedLast: nat
    var bytes: nat
    var buffers: nat
    var speedAvg: nat
    ghost var samples: seq<nat>

    ghost predicate Valid()
      reads this
    {
      && word > 0 && buffers == |samples|
      && speedAvg == Average(samples, word)
      && (samples != [] ==> speedLast == samples[|samples| - 1])
    }

    constructor (word: nat)
      requires word > 0
      ensures Valid() && samples == [] && this.word == word
    {
      this.word, speedLast, bytes, buffers, speedAvg, samples := word, 0, 0, 0, 0, [];
    }

    /**
     Account for a transfer of `len` bytes in `time` nanoseconds; a time of zero is ignored. The average stays
     close to the mean while the product of this update fits a word too.
     */
    method AddStats(len: nat, time: int)
      requires Valid() && len < U32 && (time != 0 ==> Divisor(time) > 0)
      modifies this
      ensures Valid()
      ensures time == 0 ==> samples == old(samples) && bytes == old(bytes)
      ensures time != 0 ==> samples == old(samples) + [Speed(len, time) % word] && bytes == old(bytes) + len
      ensures time != 0 ==> (NoWrap(samples, word) <==>
                               NoWrap(old(samples), word) && old(speedAvg) * old(buffers) < word)
      ensures NoWrap(samples, word) ==> CloseToMean(buffers, speedAvg, Sum(samples))
    {
      if time != 0 {
        var speed := Speed(len, time);
        speedLast := speed % word;
        bytes := bytes + len;
        buffers := buffers + 1;
        var scaled := speedAvg * (buffers - 1) % word;
        speedAvg := Floors(scaled, speedLast, buffers);
        NoWrapAppend(samples, speedLast, word);
        samples := samples + [speedLast];
        assert samples[..|samples| - 1] == old(samples);
      }
      if NoWrap(samples, word) {
        AverageBounds(samples, word, |samples|);
        assert samples[..|samples|] == samples;
      }
    }
  }

  lemma NoWrapAppend(samples: seq<nat>, last: nat, w: nat)
    requires w > 0
    ensures NoWrap(samples + [last], w) <==> NoWrap(samples, w) && Average(samples, w) * |samples| < w
  {
    var longer := samples + [last];
    assert longer[..|samples|] == samples == samples[..|samples|];
    forall k | 0 <= k <= |samples|
      ensures longer[..k] == samples[..k]
    {
    }
    assert forall k | 0 <= k < |samples| :: Fits(longer, w, k) <==> Fits(samples, w, k);
    assert Fits(longer, w, |samples|) <==> Average(samples, w) * |samples| < w;
  }
}
