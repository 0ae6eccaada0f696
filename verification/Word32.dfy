/** The 32-bit words that ECMAScript's bitwise operators work on, least significant
    bit first. Shift counts are taken modulo 32 and `>>` copies the sign bit. */
module Word32 {
  type Word = w: seq<bool> | |w| == 32 witness seq(32, i => false)

  const ZERO: Word := Repeated(false)

  function Repeated(b: bool): Word { seq(32, i => b) }

  /** `1 << n` */
  function Bit(n: nat): Word { seq(32, i => i == n % 32) }

  /** `(1 << n) - 1` */
  function LowMask(n: nat): Word { seq(32, i => i < n % 32) }

  /** `a | b` */
  function Or(a: Word, b: Word): Word { seq(32, i requires 0 <= i < 32 => a[i] || b[i]) }

  /** `a & b` */
  function And(a: Word, b: Word): Word { seq(32, i requires 0 <= i < 32 => a[i] && b[i]) }

  /** `a ^ b` */
  function Xor(a: Word, b: Word): Word { seq(32, i requires 0 <= i < 32 => a[i] != b[i]) }

  /** `a << n` */
  function Shl(a: Word, n: nat): Word { seq(32, i requires 0 <= i < 32 => i >= n % 32 && a[i - n % 32]) }

  /** `a >> n`, which keeps the sign */
  function Sar(a: Word, n: nat): Word {
    seq(32, i requires 0 <= i < 32 => a[if i + n % 32 < 32 then i + n % 32 else 31])
  }

  /** `(a >> n) & 1` as a truth value */
  predicate Test(a: Word, n: nat) { a[n % 32] }

  /** A word is non-zero exactly when some bit is set. */
  lemma NonZeroHasBit(a: Word)
    ensures a != ZERO <==> exists i :: 0 <= i < 32 && a[i]
  {
    if forall i :: 0 <= i < 32 ==> !a[i] {
      assert a == ZERO;
    } else {
      var i :| 0 <= i < 32 && a[i];
      assert !ZERO[i];
    }
  }

  /** A word with its sign bit set never shifts to zero. */
  lemma SignNeverShiftsOut(a: Word, n: nat)
    requires a[31]
    ensures Sar(a, n) != ZERO
  {
    assert Sar(a, n)[31];
  }

  /** Shifting a non-negative word right leaves zero exactly when no bit at or above the count is set. */
  lemma SarZero(a: Word, n: nat)
    requires !a[31] && n < 32
    ensures Sar(a, n) == ZERO <==> forall i :: n <= i < 32 ==> !a[i]
  {
    if Sar(a, n) == ZERO {
      forall i | n <= i < 32 ensures !a[i] {
        assert Sar(a, n)[i - n] == a[i];
      }
    } else {
      NonZeroHasBit(Sar(a, n));
    }
  }
}
