/**
 * The difficulty test of the proof-of-work credential generator (`pow.py`):
 * a hash value passes when its leading bits are zero.
 */
module ProofOfWork {
  import opened Bits

  /** Width in bits of a SHA-1 digest, the default hash width. */
  const DIGEST_BITS: nat := 160

  /**
   * `check_leading_zeros(h, n, b)`: the `n` most significant bits of the
   * `b`-bit hash value `h` are all zero.  The test masks bits `b - n` .. `b - 1`
   * of `h` and shifts them down; Python raises on the negative shift count
   * that `n > b` would give, so callers keep `n <= b`.
   */
  function CheckLeadingZeros(h: nat, n: nat, b: nat := DIGEST_BITS): (r: bool)
    requires n <= b
    ensures r <==> h / Pow2(b - n) % Pow2(n) == 0
  {
    var mask := Pow2(n) - 1;
    MaskedField(h, n, b - n);
    if ShiftRight(And(h, ShiftLeft(mask, b - n)), b - n) == 0 then true else false
  }

  /** Demanding no zero bits accepts every hash: the mask is empty. */
  lemma ZeroDifficultyPasses(h: nat, b: nat)
    ensures CheckLeadingZeros(h, 0, b)
  {
  }

  /**
   * Only bits `b - n` .. `b - 1` decide: a hash assembled from any high bits `hi`
   * (at or above bit `b`), the field `f` and any low bits `lo` (below bit
   * `b - n`) passes exactly when the field is zero.
   */
  lemma OnlyLeadingFieldMatters(hi: nat, f: nat, lo: nat, n: nat, b: nat)
    requires n <= b && f < Pow2(n) && lo < Pow2(b - n)
    ensures CheckLeadingZeros(hi * Pow2(b) + f * Pow2(b - n) + lo, n, b) <==> f == 0
  {
    FieldOf(hi, f, lo, b - n, n);
    assert b - n + n == b;
  }

  /** For a hash that fits in `b` bits, passing means being below `2 ** (b - n)`. */
  lemma PassesIffBelow(h: nat, n: nat, b: nat)
    requires n <= b && h < Pow2(b)
    ensures CheckLeadingZeros(h, n, b) <==> h < Pow2(b - n)
  {
    assert b - n + n == b;
    FieldZeroIffBelow(h, b - n, n);
  }

  /** A hash that meets a difficulty meets every lower one. */
  lemma MonotoneInDifficulty(h: nat, n: nat, m: nat, b: nat)
    requires m <= n <= b && CheckLeadingZeros(h, n, b)
    ensures CheckLeadingZeros(h, m, b)
  {
    assert b - n + (n - m) == b - m && n - (n - m) == m;
    FieldZeroNarrows(h, b - n, n, n - m);
  }

  /** At full difficulty the test asks that `h` be a multiple of `2 ** b`. */
  lemma FullDifficulty(h: nat, b: nat)
    ensures CheckLeadingZeros(h, b, b) <==> h % Pow2(b) == 0
  {
    assert Pow2(b - b) == 1;
    assert h / 1 == h;
  }
}
