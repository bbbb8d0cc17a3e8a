/** Bytes and machine words, and bit operations on naturals, written as arithmetic. */
module BitArithmetic {

  type byte = b: int | 0 <= b < 256

  const WORD32: nat := 0x1_0000_0000
  const WORD64: nat := 0x1_0000_0000_0000_0000
  const HALF64: nat := 0x8000_0000_0000_0000

  type u32 = x: int | 0 <= x < WORD32
  type u64 = x: int | 0 <= x < WORD64
  type i64 = x: int | 0 - HALF64 <= x < HALF64

  /** Arithmetic on words: the value modulo 2^32 or 2^64, and the signed reading of a word. */
  function Wrap32(v: int): u32 {
    v % WORD32
  }

  function Wrap64(v: int): u64 {
    v % WORD64
  }

  function Signed(w: u64): i64 {
    if w < HALF64 then w else w - WORD64
  }

  lemma Wrap32Adds(a: int, b: int)
    ensures Wrap32(Wrap32(a) + b) == Wrap32(a + b)
  {
  }

  lemma Wrap64Adds(a: int, b: int)
    ensures Wrap64(Wrap64(a) + b) == Wrap64(a + b)
  {
  }

  function Pow2(k: nat): (p: nat)
    ensures p > 0
  {
    if k == 0 then 1 else 2 * Pow2(k - 1)
  }

  /** `v << k`. */
  function ShiftLeft(v: nat, k: nat): nat {
    if k == 0 then v else 2 * ShiftLeft(v, k - 1)
  }

  /** `v >> k`. */
  function ShiftRight(v: nat, k: nat): nat {
    if k == 0 then v else ShiftRight(v, k - 1) / 2
  }

  /** `v & mask`. */
  function BitAnd(v: nat, mask: nat): nat {
    if mask == 0 then 0 else (if v % 2 == 1 && mask % 2 == 1 then 1 else 0) + 2 * BitAnd(v / 2, mask / 2)
  }

  /** `a | b`. */
  function BitOr(a: nat, b: nat): nat {
    if a == 0 && b == 0 then 0 else (if a % 2 == 1 || b % 2 == 1 then 1 else 0) + 2 * BitOr(a / 2, b / 2)
  }

  /** Bits that do not overlap are joined by adding. */
  lemma {:induction false} OrIsPlus(low: nat, k: nat, high: nat)
    requires low < Pow2(k)
    ensures BitOr(low, Pow2(k) * high) == low + Pow2(k) * high
  {
    if k == 0 {
      OrZero(high);
    } else if low != 0 || high != 0 {
      assert Pow2(k) * high == 2 * (Pow2(k - 1) * high);
      OrIsPlus(low / 2, k - 1, high);
    }
  }

  lemma {:induction false} OrZero(b: nat)
    ensures BitOr(0, b) == b
    ensures BitOr(b, 0) == b
  {
    if b != 0 {
      OrZero(b / 2);
    }
  }

  /** The low n bits. */
  function Truncate(v: nat, n: nat): (t: nat)
    ensures t < Pow2(n)
  {
    if n == 0 then 0 else v % 2 + 2 * Truncate(v / 2, n - 1)
  }

  lemma {:induction false} TruncateOr(a: nat, b: nat, n: nat)
    ensures BitOr(Truncate(a, n), Truncate(b, n)) == Truncate(BitOr(a, b), n)
  {
    hide BitOr;
    OrHalves(a, b);
    OrHalves(Truncate(a, n), Truncate(b, n));
    if n > 0 {
      TruncateOr(a / 2, b / 2, n - 1);
    } else {
      OrZero(0);
    }
  }

  lemma OrHalves(a: nat, b: nat)
    ensures BitOr(a, b) % 2 == (if a % 2 == 1 || b % 2 == 1 then 1 else 0) && BitOr(a, b) / 2 == BitOr(a / 2, b / 2)
  {
  }

  /** What truncation leaves out is a multiple of 2^n. */
  lemma {:induction false} TruncateRest(v: nat, n: nat) returns (high: nat)
    ensures v == Truncate(v, n) + Pow2(n) * high
  {
    if n == 0 {
      high := v;
    } else {
      high := TruncateRest(v / 2, n - 1);
      assert Pow2(n) * high == 2 * (Pow2(n - 1) * high);
    }
  }

  lemma {:induction false} Pow2Adds(i: nat, j: nat)
    ensures Pow2(i + j) == Pow2(i) * Pow2(j)
  {
    if i > 0 {
      Pow2Adds(i - 1, j);
      assert Pow2(i) * Pow2(j) == 2 * (Pow2(i - 1) * Pow2(j));
    }
  }

  lemma {:induction false} Pow2Monotone(i: nat, j: nat)
    requires i <= j
    ensures Pow2(i) <= Pow2(j) && (i < j ==> 2 * Pow2(i) <= Pow2(j))
  {
    if i < j {
      Pow2Monotone(i, j - 1);
    }
  }

  /** `a ^ b`. */
  function BitXor(a: nat, b: nat): nat {
    if a == 0 && b == 0 then 0 else (if a % 2 != b % 2 then 1 else 0) + 2 * BitXor(a / 2, b / 2)
  }

  lemma {:induction false} XorZero(a: nat)
    ensures BitXor(a, 0) == a && BitXor(a, a) == 0
  {
    if a > 0 {
      XorZero(a / 2);
    }
  }

  lemma {:induction false} XorSame(a: nat, b: nat)
    ensures BitXor(a, b) == 0 <==> a == b
  {
    if a > 0 || b > 0 {
      XorSame(a / 2, b / 2);
    }
  }

  lemma {:induction false} XorRange(a: nat, b: nat, k: nat)
    requires a < Pow2(k) && b < Pow2(k)
    ensures BitXor(a, b) < Pow2(k)
  {
    if k > 0 {
      XorRange(a / 2, b / 2, k - 1);
    }
  }

  lemma XorStep(a: nat, b: nat)
    ensures BitXor(a, b) == (if a % 2 != b % 2 then 1 else 0) + 2 * BitXor(a / 2, b / 2)
  {
  }

  lemma AndStep(a: nat, b: nat)
    ensures BitAnd(a, b) == (if a % 2 == 1 && b % 2 == 1 then 1 else 0) + 2 * BitAnd(a / 2, b / 2)
  {
  }

  lemma Pow2Step(k: nat)
    requires k > 0
    ensures Pow2(k) == 2 * Pow2(k - 1)
  {
  }

  lemma HalfOfSum(a: nat, s: nat)
    ensures (a + 2 * s) / 2 == a / 2 + s && (a + 2 * s) % 2 == a % 2
  {
  }

  lemma {:induction false} ShiftIsTimes(v: nat, k: nat)
    ensures ShiftLeft(v, k) == Pow2(k) * v
  {
    if k > 0 {
      ShiftIsTimes(v, k - 1);
      assert Pow2(k) * v == 2 * (Pow2(k - 1) * v);
    }
  }

  /** Numbers split at bit k combine part by part. */
  lemma {:induction false} XorSplit(a: nat, x: nat, b: nat, y: nat, k: nat)
    requires a < Pow2(k) && b < Pow2(k)
    ensures BitXor(a + ShiftLeft(x, k), b + ShiftLeft(y, k)) == BitXor(a, b) + ShiftLeft(BitXor(x, y), k)
  {
    if k > 0 {
      hide BitXor;
      XorSplit(a / 2, x, b / 2, y, k - 1);
      HalfOfSum(a, ShiftLeft(x, k - 1));
      HalfOfSum(b, ShiftLeft(y, k - 1));
      XorStep(a + ShiftLeft(x, k), b + ShiftLeft(y, k));
      XorStep(a, b);
    }
  }

  lemma {:induction false} AndSplit(a: nat, x: nat, b: nat, y: nat, k: nat)
    requires a < Pow2(k) && b < Pow2(k)
    ensures BitAnd(a + ShiftLeft(x, k), b + ShiftLeft(y, k)) == BitAnd(a, b) + ShiftLeft(BitAnd(x, y), k)
  {
    if k > 0 {
      hide BitAnd;
      AndSplit(a / 2, x, b / 2, y, k - 1);
      HalfOfSum(a, ShiftLeft(x, k - 1));
      HalfOfSum(b, ShiftLeft(y, k - 1));
      AndStep(a + ShiftLeft(x, k), b + ShiftLeft(y, k));
      AndStep(a, b);
    }
  }

  lemma {:induction false} AndAllOnes(a: nat, k: nat)
    requires a < Pow2(k)
    ensures BitAnd(a, Pow2(k) - 1) == a
  {
    if k > 0 {
      AndAllOnes(a / 2, k - 1);
    }
  }

  /** Bits once set stay set, and or-ing sets them. */
  lemma {:induction false} OrSets(w: nat, m: nat)
    ensures BitAnd(BitOr(w, m), m) == m
  {
    if m > 0 {
      OrSets(w / 2, m / 2);
    }
  }

  lemma {:induction false} OrKeeps(w: nat, m: nat, x: nat)
    requires BitAnd(w, m) == m
    ensures BitAnd(BitOr(w, x), m) == m
  {
    if m > 0 {
      OrKeeps(w / 2, m / 2, x / 2);
    }
  }

  // ----- single bits -----

  /** Bit k of v. */
  function BitOf(v: nat, k: nat): nat {
    ShiftRight(v, k) % 2
  }

  lemma {:induction false} HalfFirst(v: nat, k: nat)
    ensures ShiftRight(v / 2, k) == ShiftRight(v, k + 1)
  {
    if k > 0 {
      HalfFirst(v, k - 1);
    }
  }

  lemma {:induction false} ShiftedOut(v: nat, k: nat)
    requires v < Pow2(k)
    ensures ShiftRight(v, k) == 0
  {
    if k > 0 {
      HalfFirst(v, k - 1);
      ShiftedOut(v / 2, k - 1);
    }
  }

  lemma {:induction false} ShiftOfSum(r: nat, q: nat, k: nat, j: nat)
    requires j <= k
    ensures ShiftRight(r + ShiftLeft(q, k), j) == ShiftRight(r, j) + ShiftLeft(q, k - j)
    decreases j
  {
    if j > 0 {
      ShiftOfSum(r, q, k, j - 1);
      HalfOfSum(ShiftRight(r, j - 1), ShiftLeft(q, k - j));
    }
  }

  lemma Divided(v: nat, k: nat) returns (q: nat, r: nat)
    ensures q == v / Pow2(k) && r == v % Pow2(k) && r < Pow2(k) && v == r + ShiftLeft(q, k)
  {
    hide Pow2, ShiftLeft;
    q, r := v / Pow2(k), v % Pow2(k);
    ShiftIsTimes(q, k);
  }

  lemma ShiftedEven(q: nat, k: nat)
    requires k > 0
    ensures ShiftLeft(q, k) % 2 == 0
  {
  }

  /** Division by a power of two is a shift. */
  lemma DivisionShifts(v: nat, k: nat)
    ensures v / Pow2(k) == ShiftRight(v, k)
  {
    hide Pow2, ShiftRight;
    var q, r := Divided(v, k);
    ShiftOfSum(r, q, k, k);
    ShiftedOut(r, k);
  }

  /** And the remainder keeps the bits below. */
  lemma BitsBelow(v: nat, k: nat, j: nat)
    requires j < k
    ensures BitOf(v % Pow2(k), j) == BitOf(v, j)
  {
    hide Pow2, ShiftLeft, ShiftRight;
    var q, r := Divided(v, k);
    ShiftOfSum(r, q, k, j);
    ShiftedEven(q, k - j);
  }

  lemma {:induction false} ShiftTwice(v: nat, i: nat, j: nat)
    ensures ShiftRight(ShiftRight(v, i), j) == ShiftRight(v, i + j)
    decreases j
  {
    if j > 0 {
      ShiftTwice(v, i, j - 1);
    }
  }

  lemma ShiftedBack(v: nat, k: nat)
    ensures ShiftRight(ShiftLeft(v, k), k) == v
  {
    ShiftOfSum(0, v, k, k);
    ShiftedOut(0, k);
  }

  lemma {:induction false} AndIsTruncate(v: nat, k: nat)
    ensures BitAnd(v, Pow2(k) - 1) == Truncate(v, k)
  {
    if k > 0 {
      AndIsTruncate(v / 2, k - 1);
      assert (Pow2(k) - 1) / 2 == Pow2(k - 1) - 1 && (Pow2(k) - 1) % 2 == 1;
    }
  }
}
