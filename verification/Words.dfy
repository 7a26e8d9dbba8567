/** Machine words as natural numbers, with the bit operators of C on them.

    `And` and `Or` are defined one bit at a time. The lemmas give the arithmetic
    value of every mask expression that the memory manager uses.
  */
module Words {

  function Pow2(k: nat): (p: nat)
    ensures p > 0
  {
    if k == 0 then 1 else 2 * Pow2(k - 1)
  }

  function And(a: nat, b: nat): nat {
    if a == 0 || b == 0 then 0 else 2 * And(a / 2, b / 2) + (a % 2) * (b % 2)
  }

  function Or(a: nat, b: nat): nat {
    if a == 0 then b
    else if b == 0 then a
    else 2 * Or(a / 2, b / 2) + (if a % 2 == 1 || b % 2 == 1 then 1 else 0)
  }

  function Shr(a: nat, k: nat): nat {
    DivNat(a, Pow2(k));
    a / Pow2(k)
  }

  /** `a << k` on 64 bits. */
  function Shl64(a: nat, k: nat): nat {
    a * Pow2(k) % 0x1_0000_0000_0000_0000
  }

  /** `~a` on 64 bits. */
  function Not64(a: nat): nat
    requires a < 0x1_0000_0000_0000_0000
  {
    0xFFFF_FFFF_FFFF_FFFF - a
  }

  /** __builtin_ctz: the number of trailing zero bits. */
  function Ctz(n: nat): nat
    requires n > 0
  {
    if n % 2 == 1 then 0 else 1 + Ctz(n / 2)
  }

  function AlignDown(a: nat, size: nat): nat
    requires size > 0
  {
    a - a % size
  }

  function AlignUp(a: nat, size: nat): nat
    requires size > 0
  {
    AlignDown(a + size - 1, size)
  }

  lemma Pow2Values()
    ensures Pow2(0) == 1 && Pow2(1) == 2 && Pow2(3) == 8 && Pow2(5) == 32 && Pow2(7) == 128
    ensures Pow2(9) == 512 && Pow2(12) == 0x1000 && Pow2(18) == 0x4_0000
    ensures Pow2(20) == 0x10_0000 && Pow2(21) == 0x20_0000
    ensures Pow2(27) == 0x800_0000 && Pow2(30) == 0x4000_0000
    ensures Pow2(39) == 0x80_0000_0000 && Pow2(47) == 0x8000_0000_0000 && Pow2(52) == 0x10_0000_0000_0000
    ensures Pow2(60) == 0x1000_0000_0000_0000
    ensures Pow2(64) == 0x1_0000_0000_0000_0000
  {}

  lemma {:induction false} Pow2Mono(k: nat, w: nat)
    requires k <= w
    ensures Pow2(k) <= Pow2(w)
  {
    if k < w {
      Pow2Mono(k, w - 1);
    }
  }

  lemma {:induction false} Pow2Add(j: nat, k: nat)
    ensures Pow2(j + k) == Pow2(j) * Pow2(k)
  {
    if j > 0 {
      Pow2Add(j - 1, k);
      MulAssoc(2, Pow2(j - 1), Pow2(k));
    }
  }

  lemma MulAssoc(a: int, b: int, c: int)
    ensures a * (b * c) == (a * b) * c
  {}

  lemma DivUnique(n: nat, d: nat, q: nat, r: nat)
    requires d > 0 && n == q * d + r && r < d
    ensures n / d == q && n % d == r
  {
    var e := n / d - q;
    assert n % d == r - e * d;
    if e >= 1 {
      MulMono(1, e, d);
    } else if e <= -1 {
      MulMono(e, -1, d);
    }
  }

  lemma DivNat(n: nat, d: nat)
    requires d > 0
    ensures 0 <= n / d <= n && n == n / d * d + n % d
    ensures d > 1 && n > 0 ==> n / d < n
  {
    var q := n / d;
    if q < 0 {
      MulMono(q, -1, d);
    } else if n < q {
      MulMono(1, d, q);
    } else if d > 1 && q > 0 {
      MulMono(2, d, q);
    }
  }

  lemma MulMono(a: int, b: int, d: nat)
    requires a <= b
    ensures a * d <= b * d
  {}

  /** Halving commutes with taking the remainder by a power of two. */
  lemma HalfMod(a: nat, k: nat)
    requires k > 0
    ensures a % Pow2(k) == 2 * (a / 2 % Pow2(k - 1)) + a % 2
  {
    var t := Pow2(k - 1);
    var q, r := a / 2 / t, a / 2 % t;
    MulAssoc(q, 2, t);
    DivUnique(a, 2 * t, q, 2 * r + a % 2);
  }

  lemma AndStep(a: nat, b: nat)
    ensures And(a, b) == 2 * And(a / 2, b / 2) + (a % 2) * (b % 2)
  {}

  lemma OrStep(a: nat, b: nat)
    ensures Or(a, b) == 2 * Or(a / 2, b / 2) + (if a % 2 == 1 || b % 2 == 1 then 1 else 0)
  {}

  /** Halving the mask of bit positions k..w-1. */
  lemma MaskHalf(w: nat, k: nat)
    requires k < w
    ensures Pow2(k) <= Pow2(w) && Pow2(Dec(k)) <= Pow2(w - 1)
    ensures (Pow2(w) - Pow2(k)) / 2 == Pow2(w - 1) - Pow2(Dec(k))
    ensures (Pow2(w) - Pow2(k)) % 2 == if k == 0 then 1 else 0
  {
    Pow2Mono(k, w);
    Pow2Mono(Dec(k), w - 1);
  }

  function Dec(k: nat): nat {
    if k == 0 then 0 else k - 1
  }

  lemma HalfModDec(a: nat, k: nat)
    ensures a % Pow2(k) == 2 * (a / 2 % Pow2(Dec(k))) + (if k == 0 then 0 else a % 2)
  {
    if k > 0 {
      HalfMod(a, k);
    }
  }

  /** Masking with ones in bit positions k..w-1 keeps exactly that field. */
  lemma {:induction false} AndField(a: nat, w: nat, k: nat)
    requires k <= w
    ensures Pow2(k) <= Pow2(w)
    ensures And(a, Pow2(w) - Pow2(k)) == a % Pow2(w) - a % Pow2(k)
    decreases w
  {
    if k < w {
      hide And;
      MaskHalf(w, k);
      AndStep(a, Pow2(w) - Pow2(k));
      HalfModDec(a, w);
      HalfModDec(a, k);
      AndField(a / 2, w - 1, Dec(k));
      hide Pow2;
    }
  }

  /** Setting every bit from position k up to w-1 of a w-bit word. */
  lemma {:induction false} OrHighMask(a: nat, w: nat, k: nat)
    requires k <= w && a < Pow2(w)
    ensures Pow2(k) <= Pow2(w)
    ensures Or(a, Pow2(w) - Pow2(k)) == Pow2(w) - Pow2(k) + a % Pow2(k)
    decreases w
  {
    if k == w {
      DivUnique(a, Pow2(w), 0, a);
    } else {
      MaskHalf(w, k);
      OrStep(a, Pow2(w) - Pow2(k));
      HalfModDec(a, k);
      OrHighMask(a / 2, w - 1, Dec(k));
      OrHighStep(Or(a, Pow2(w) - Pow2(k)), a / 2 % Pow2(Dec(k)), a % 2, w, k);
    }
  }

  lemma OrHighStep(or: nat, rest: nat, low: nat, w: nat, k: nat)
    requires k < w && low <= 1 && (k == 0 ==> rest == 0)
    requires or == 2 * (Pow2(w - 1) - Pow2(Dec(k)) + rest) + (if low == 1 || k == 0 then 1 else 0)
    ensures or == Pow2(w) - Pow2(k) + (2 * rest + (if k == 0 then 0 else low))
  {}

  /** `|` of an aligned word and a value that fits below the alignment is a sum. */
  lemma {:induction false} OrAligned(a: nat, f: nat, k: nat)
    requires a % Pow2(k) == 0 && f < Pow2(k)
    ensures Or(a, f) == a + f
    decreases k
  {
    if k > 0 {
      OrStep(a, f);
      HalfMod(a, k);
      hide Or;
      OrAligned(a / 2, f / 2, k - 1);
    }
  }

  /** `a & ~(2^k - 1)` on 64 bits aligns down. */
  lemma AndNotMask(a: nat, k: nat)
    requires k <= 64 && a < 0x1_0000_0000_0000_0000
    ensures Pow2(k) - 1 < 0x1_0000_0000_0000_0000
    ensures And(a, Not64(Pow2(k) - 1)) == AlignDown(a, Pow2(k))
  {
    hide And;
    Pow2Values();
    AndField(a, 64, k);
  }

  lemma {:induction false} CtzOfPow2(k: nat)
    ensures Ctz(Pow2(k)) == k
  {
    if k > 0 {
      CtzOfPow2(k - 1);
    }
  }

  /** Aligning up gives the least multiple that is not below the address. */
  lemma AlignUpLeast(a: nat, size: nat)
    requires size > 0
    ensures AlignUp(a, size) % size == 0
    ensures a <= AlignUp(a, size) < a + size
    ensures forall b: nat :: b % size == 0 && a <= b ==> AlignUp(a, size) <= b
  {
    AlignDownMultiple(a + size - 1, size);
    forall b: nat | b % size == 0 && a <= b ensures AlignUp(a, size) <= b {
      if b < AlignUp(a, size) {
        MultiplesApart(b, AlignUp(a, size), size);
      }
    }
  }

  lemma AlignDownMultiple(a: nat, size: nat)
    requires size > 0
    ensures AlignDown(a, size) % size == 0 && AlignDown(a, size) <= a < AlignDown(a, size) + size
  {
    var q := a / size;
    assert AlignDown(a, size) == q * size + 0;
    DivUnique(AlignDown(a, size), size, q, 0);
  }

  lemma MultiplesApart(a: nat, b: nat, size: nat)
    requires size > 0 && a % size == 0 && b % size == 0 && a < b
    ensures a + size <= b
  {
    var p, q := a / size, b / size;
    if q <= p {
      MulMono(q, p, size);
    } else {
      MulMono(p + 1, q, size);
    }
  }

  lemma {:induction false} ModOfSum(a: nat, q: nat, size: nat)
    requires size > 0
    ensures (a + q * size) % size == a % size && (a + q * size) / size == a / size + q
  {
    DivUnique(a + q * size, size, a / size + q, a % size);
  }
}
