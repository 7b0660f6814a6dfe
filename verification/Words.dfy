/**
 Unsigned 64-bit words as their bits, least significant first. The bitwise
 operators and shifts are the ones C++ defines on `uint64_t`; the mask tables are
 the ones of `null_mask.h`.
 */
module Words {
  type Word = w: seq<bool> | |w| == 64 witness seq(64, _ => false)

  const NO_NULL_ENTRY: Word := seq(64, _ => false)
  const ALL_NULL_ENTRY: Word := seq(64, _ => true)

  function And(a: Word, b: Word): (r: Word)
    ensures forall i | 0 <= i < 64 :: r[i] == (a[i] && b[i])
  {
    seq(64, i requires 0 <= i < 64 => a[i] && b[i])
  }

  function Or(a: Word, b: Word): (r: Word)
    ensures forall i | 0 <= i < 64 :: r[i] == (a[i] || b[i])
  {
    seq(64, i requires 0 <= i < 64 => a[i] || b[i])
  }

  function Not(a: Word): (r: Word)
    ensures forall i | 0 <= i < 64 :: r[i] == !a[i]
  {
    seq(64, i requires 0 <= i < 64 => !a[i])
  }

  /** `a << n`; bits moved past the top are lost. */
  function ShiftLeft(a: Word, n: nat): (r: Word)
    ensures forall i | 0 <= i < 64 :: r[i] == (n <= i && a[i - n])
  {
    seq(64, i requires 0 <= i < 64 => n <= i && a[i - n])
  }

  /** `a >> n`; zeros enter at the top. */
  function ShiftRight(a: Word, n: nat): (r: Word)
    ensures forall i | 0 <= i < 64 :: r[i] == (i + n < 64 && a[i + n])
  {
    seq(64, i requires 0 <= i < 64 => i + n < 64 && a[i + n])
  }

  /** `NULL_LOWER_MASKS[k]`: ones in the low `k` bits. */
  function LowerMask(k: nat): (r: Word)
    requires k <= 64
    ensures forall i | 0 <= i < 64 :: r[i] == (i < k)
  {
    seq(64, i => i < k)
  }

  /** `NULL_HIGH_MASKS[k]`: ones in the high `k` bits. */
  function HighMask(k: nat): (r: Word)
    requires k <= 64
    ensures forall i | 0 <= i < 64 :: r[i] == (64 - k <= i)
  {
    seq(64, i => 64 - k <= i)
  }

  /** `NULL_BITMASKS_WITH_SINGLE_ONE[k]`; the single-zero table is its complement. */
  function SingleOne(k: nat): (r: Word)
    requires k < 64
    ensures forall i | 0 <= i < 64 :: r[i] == (i == k)
  {
    seq(64, i => i == k)
  }

  /** `std::popcount`. */
  function PopCount(w: seq<bool>): nat {
    if w == [] then 0 else (if w[0] then 1 else 0) + PopCount(w[1..])
  }

  /** A word differs from zero exactly when one of its bits is set. */
  lemma NonZero(w: Word)
    ensures w != NO_NULL_ENTRY <==> exists i :: 0 <= i < 64 && w[i]
  {
    if forall i | 0 <= i < 64 :: !w[i] {
      assert w == NO_NULL_ENTRY;
    }
  }

  /** A masked word equals its mask exactly when every bit under the mask is set. */
  lemma FullUnderMask(w: Word, mask: Word)
    ensures And(w, mask) == mask <==> forall i | 0 <= i < 64 && mask[i] :: w[i]
    ensures And(w, mask) == NO_NULL_ENTRY <==> forall i | 0 <= i < 64 && mask[i] :: !w[i]
  {
    var m := And(w, mask);
    if forall i | 0 <= i < 64 && mask[i] :: w[i] {
      assert m == mask;
    }
    if forall i | 0 <= i < 64 && mask[i] :: !w[i] {
      assert m == NO_NULL_ENTRY;
    }
    if m == mask {
      assert forall i | 0 <= i < 64 && mask[i] :: m[i];
    }
    if m == NO_NULL_ENTRY {
      assert forall i | 0 <= i < 64 :: !m[i];
    }
  }
}
