/**
 * Budget arithmetic shared by the two reducers: the `split` fraction
 * (a Rust `f32`, modelled as an exact ratio), the head counts the source
 * derives from it, and the "first h, last n - h" slice of a sequence.
 */
module Budget {

  /** Rust's `u16`, the type of both `max_len` parameters. */
  type U16 = x: nat | x < 0x1_0000

  /** A non-negative fraction `num / den`, standing for the `f32` split. */
  datatype Fraction = Fraction(num: nat, den: nat)
  type Split = f: Fraction | f.den > 0 witness Fraction(0, 1)

  /** At most one: the split keeps a share, not a multiple, of the count. */
  predicate AtMostOne(split: Split) {
    split.num <= split.den
  }

  /** `(n as f32 * split) as usize`, in exact arithmetic: the floor of n * split. */
  function FloorOf(n: nat, split: Split): (h: nat)
    ensures AtMostOne(split) ==> h <= n
  {
    ShareOfAtMost(n, split, n * split.num);
    n * split.num / split.den
  }

  /** `(n as f32 * split).ceil() as usize`, in exact arithmetic: the ceiling of n * split. */
  function CeilOf(n: nat, split: Split): (h: nat)
    ensures AtMostOne(split) ==> h <= n
  {
    ShareOfAtMost(n, split, n * split.num + split.den - 1);
    (n * split.num + split.den - 1) / split.den
  }

  /** Dividing anything below (n + 1) * den by den gives at most n, when num <= den. */
  lemma ShareOfAtMost(n: nat, split: Split, a: nat)
    requires a <= n * split.num + split.den - 1
    ensures AtMostOne(split) ==> a / split.den <= n
  {
    if AtMostOne(split) {
      var d, q := split.den, a / split.den;
      DivBounds(a, d);
      MulMonotone(n, split.num, d);
      assert q * d <= a < n * d + d;
      assert n * d + d == (n + 1) * d;
      MulCancel(q, n, d);
    }
  }

  /** The floor is the largest h with h * den <= n * num, and a split at most one keeps it within n. */
  lemma FloorOfBounds(n: nat, split: Split)
    ensures var h := FloorOf(n, split);
      h * split.den <= n * split.num < (h + 1) * split.den && (AtMostOne(split) ==> h <= n)
  {
    var a := n * split.num;
    var h := a / split.den;
    DivBounds(a, split.den);
    ShareBound(n, h, split);
  }

  /** The ceiling is the smallest h with n * num <= h * den, and a split at most one keeps it within n. */
  lemma CeilOfBounds(n: nat, split: Split)
    ensures var h := CeilOf(n, split);
      n * split.num <= h * split.den < n * split.num + split.den && (AtMostOne(split) ==> h <= n)
  {
    var a := n * split.num + split.den - 1;
    var h := a / split.den;
    DivBounds(a, split.den);
    ShareBound(n, h, split);
  }

  /** The ceiling is at least n * split. */
  lemma CeilAtLeast(n: nat, split: Split)
    ensures n * split.num <= CeilOf(n, split) * split.den
  {
    CeilOfBounds(n, split);
  }

  /** A count below n * split + 1 is at most n when the split is at most one. */
  lemma ShareBound(n: nat, h: nat, split: Split)
    requires h * split.den < n * split.num + split.den
    ensures AtMostOne(split) ==> h <= n
  {
    if AtMostOne(split) {
      MulMonotone(n, split.num, split.den);
      assert h * split.den < (n + 1) * split.den;
      MulCancel(h, n, split.den);
    }
  }

  lemma DivBounds(a: nat, d: nat)
    requires d > 0
    ensures (a / d) * d <= a < (a / d + 1) * d
  {
  }

  lemma MulMonotone(n: nat, x: nat, y: nat)
    requires x <= y
    ensures n * x <= n * y
  {
  }

  /** If h * d < (n + 1) * d then h <= n. */
  lemma MulCancel(h: nat, n: nat, d: nat)
    requires d > 0
    requires h * d < (n + 1) * d
    ensures h <= n
  {
  }

  /**
   * The first `head` elements of `s` followed by its last `total - head`
   * elements: what is left when the middle is cut out so that `total`
   * elements remain. The two spans do not overlap.
   */
  function HeadTail<T>(s: seq<T>, head: nat, total: nat): (r: seq<T>)
    requires head <= total <= |s|
    ensures |r| == total
    ensures r[..head] == s[..head]
    ensures r[head..] == s[|s| - (total - head)..]
    ensures head <= |s| - (total - head)
  {
    s[..head] + s[|s| - (total - head)..]
  }
}
