/** Linear-hash addressing: bit masks, bucket numbers, and what one split relocates. */
module HashMasks {

  function Pow2(k: nat): nat {
    if k == 0 then 1 else 2 * Pow2(k - 1)
  }

  /** Bitwise AND of non-negative numbers. */
  function BitAnd(a: nat, b: nat): nat {
    if a == 0 || b == 0 then 0
    else 2 * BitAnd(a / 2, b / 2) + (if a % 2 == 1 && b % 2 == 1 then 1 else 0)
  }

  lemma ModUnique(h: nat, m: nat, q: nat, r: nat)
    requires r < m && h == m * q + r
    ensures h % m == r && h / m == q
  {
    var q', r' := h / m, h % m;
    DivMod(h, m);
    Gap(m, q', q);
    Gap(m, q, q');
  }

  lemma Gap(m: nat, a: nat, b: nat)
    ensures a < b ==> m * a + m <= m * b
  {
    if a < b {
      assert m * (a + 1) <= m * b;
    }
  }

  lemma DivMod(h: nat, d: nat)
    requires d > 0
    ensures h == d * (h / d) + h % d && h % d < d
  {
  }

  lemma TwiceTimes(m: nat, d: nat, q: nat)
    requires d == m + m
    ensures d * q == m * (q + q) && m * (q + q + 1) == m * (q + q) + m
  {
  }

  lemma RemainderOfHalf(h: nat, m: nat, d: nat, q: nat, r: nat)
    requires d == m + m && h == d * q + r && r < d
    ensures h % m == if r < m then r else r - m
  {
    TwiceTimes(m, d, q);
    if r < m {
      ModUnique(h, m, q + q, r);
    } else {
      ModUnique(h, m, q + q + 1, r - m);
    }
  }

  lemma ModOfHalf(h: nat, m: nat, d: nat)
    requires m > 0 && d == m + m
    ensures h % d == h % m || h % d == h % m + m
  {
    DivMod(h, d);
    RemainderOfHalf(h, m, d, h / d, h % d);
  }

  /** Reducing modulo 2m first and then modulo m. */
  lemma ModTwice(h: nat, m: nat)
    requires m > 0
    ensures h % (2 * m) == h % m || h % (2 * m) == h % m + m
  {
    ModOfHalf(h, m, 2 * m);
  }

  lemma AndStep(h: nat, m: nat)
    requires m > 0
    ensures BitAnd(h, 2 * m - 1) == 2 * BitAnd(h / 2, m - 1) + h % 2
  {
    var b := 2 * m - 1;
    assert b / 2 == m - 1 && b % 2 == 1 && b != 0;
  }

  lemma ModStep(h: nat, m: nat)
    requires m > 0
    ensures h % (2 * m) == 2 * ((h / 2) % m) + h % 2
  {
    var q, r := (h / 2) / m, (h / 2) % m;
    assert h / 2 == m * q + r;
    assert 2 * (m * q) == (2 * m) * q;
    ModUnique(h, 2 * m, q, 2 * r + h % 2);
  }

  /** ANDing with a mask of k ones is reduction modulo 2^k. */
  lemma {:induction false} MaskIsMod(h: nat, k: nat)
    ensures Pow2(k) >= 1
    ensures BitAnd(h, Pow2(k) - 1) == h % Pow2(k)
  {
    hide BitAnd;
    if k == 0 {
      AndZero(h);
    } else {
      MaskIsMod(h / 2, k - 1);
      AndStep(h, Pow2(k - 1));
      ModStep(h, Pow2(k - 1));
    }
  }

  lemma AndZero(h: nat)
    ensures BitAnd(h, 0) == 0
  {
  }

  /** The bucket of `h` when the first `split` of `m` base buckets have been split. */
  function BucketOf(h: nat, m: nat, split: nat): (b: nat)
    requires m > 0 && split <= m
    ensures b < m + split
  {
    if h % (2 * m) < m + split then h % (2 * m) else h % m
  }

  /** One split re-homes entries of bucket `split` only, and only to itself or to the new bucket
      `m + split`; every other bucket keeps exactly its hashes. */
  lemma SplitRelocates(h: nat, m: nat, split: nat)
    requires m > 0 && split < m
    ensures BucketOf(h, m, split) != split ==> BucketOf(h, m, split + 1) == BucketOf(h, m, split)
    ensures BucketOf(h, m, split) == split ==> BucketOf(h, m, split + 1) == split || BucketOf(h, m, split + 1) == m + split
    ensures BucketOf(h, m, split) == split ==> (BucketOf(h, m, split + 1) == m + split <==> h % (2 * m) == m + split)
  {
    ModTwice(h, m);
  }

  /** After the last base bucket is split, the doubled table addresses the same way. */
  lemma RoundCompletes(h: nat, m: nat)
    requires m > 0
    ensures BucketOf(h, m, m) == BucketOf(h, 2 * m, 0)
  {
    ModTwice(h, 2 * m);
  }
}
