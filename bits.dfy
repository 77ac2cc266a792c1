/** Unsigned 64-bit words and the C++ bit operators the chunk code applies to them.
    A word is modelled by its 64 bits, least significant first: `w[t]` is bit `t`.
    `ToNat` and `FromNat` convert between a word and the `u64` number it stands
    for, and the lemmas at the end tie the operators to their arithmetic meaning. */
module Bits {

  const TWO_64: int := 0x1_0000_0000_0000_0000

  /** A C++ `u64` as a number. */
  type U64 = w: int | 0 <= w < TWO_64

  /** A C++ `u64` as its 64 bits, least significant first. */
  type Word = b: seq<bool> | |b| == 64 witness seq(64, i => false)

  function Pow2(n: nat): (r: nat)
    ensures r >= 1
  {
    if n == 0 then 1 else 2 * Pow2(n - 1)
  }

  lemma {:induction false} Pow2Add(a: nat, b: nat)
    ensures Pow2(a + b) == Pow2(a) * Pow2(b)
  {
    if a > 0 {
      Pow2Add(a - 1, b);
    }
  }

  lemma Pow2Byte()
    ensures Pow2(8) == 0x100
  {
  }

  lemma Pow2Half()
    ensures Pow2(16) == 0x1_0000
  {
    Pow2Byte();
    Pow2Add(8, 8);
  }

  lemma Pow2Quad()
    ensures Pow2(32) == 0x1_0000_0000
  {
    Pow2Half();
    Pow2Add(16, 16);
  }

  lemma Pow2Word()
    ensures Pow2(64) == TWO_64
  {
    Pow2Quad();
    Pow2Add(32, 32);
  }

  lemma {:induction false} Pow2Monotone(m: nat, n: nat)
    requires m <= n
    ensures Pow2(m) <= Pow2(n)
  {
    if m < n {
      Pow2Monotone(m, n - 1);
    }
  }

  lemma {:induction false} MulAtLeast(m: int, d: int)
    requires m > 0 && d >= 1
    ensures m * d >= m
  {
    if d > 1 {
      MulAtLeast(m, d - 1);
      assert m * d == m * (d - 1) + m;
    }
  }

  /** Quotient and remainder are determined by `x == m * q + r` with `0 <= r < m`. */
  lemma DivModUnique(x: int, m: int, q: int, r: int)
    requires m > 0 && x == m * q + r && 0 <= r < m
    ensures x / m == q && x % m == r
  {
    var q', r' := x / m, x % m;
    assert m * q' + r' == x;
    assert m * (q' - q) == r - r' by {
      assert m * (q' - q) == m * q' - m * q;
    }
    if q' > q {
      MulAtLeast(m, q' - q);
    }
    if q' < q {
      MulAtLeast(m, q - q');
    }
  }

  // ---------------------------------------------------------------------
  // Numbers and their binary digits

  /** The low `n` bits of `w`, least significant first. */
  function ToBits(w: nat, n: nat): (b: seq<bool>)
    ensures |b| == n
  {
    if n == 0 then [] else [w % 2 == 1] + ToBits(w / 2, n - 1)
  }

  /** The number whose binary digits, least significant first, are `b`. */
  function FromBits(b: seq<bool>): (w: nat)
    ensures w < Pow2(|b|)
  {
    if b == [] then 0 else (if b[0] then 1 else 0) + 2 * FromBits(b[1..])
  }

  lemma {:induction false} FromToBits(w: nat, n: nat)
    requires w < Pow2(n)
    ensures FromBits(ToBits(w, n)) == w
  {
    if n > 0 {
      FromToBits(w / 2, n - 1);
      assert ToBits(w, n)[1..] == ToBits(w / 2, n - 1);
    }
  }

  lemma {:induction false} ToFromBits(b: seq<bool>)
    ensures ToBits(FromBits(b), |b|) == b
  {
    if b != [] {
      ToFromBits(b[1..]);
    }
  }

  /** Bits at or above `t` of a number below 2^t are clear. */
  lemma {:induction false} ToBitsHigh(w: nat, n: nat, t: nat)
    requires t < n && w < Pow2(t)
    ensures !ToBits(w, n)[t]
  {
    if t > 0 {
      ToBitsHigh(w / 2, n - 1, t - 1);
    }
  }

  lemma HalveMod(w: nat, p: nat)
    requires p >= 1
    ensures (w % (2 * p)) % 2 == w % 2
    ensures (w % (2 * p)) / 2 == (w / 2) % p
  {
    var a, r := w / (2 * p), w % (2 * p);
    assert w == 2 * p * a + r;
    assert w == 2 * (p * a + r / 2) + r % 2;
    DivModUnique(w, 2, p * a + r / 2, r % 2);
    DivModUnique(w / 2, p, a, r / 2);
  }

  /** Reducing modulo 2^k keeps the low k bits and clears the others. */
  lemma {:induction false} ToBitsMod(w: nat, k: nat, n: nat, t: nat)
    requires t < n
    ensures ToBits(w % Pow2(k), n)[t] == (t < k && ToBits(w, n)[t])
  {
    if k == 0 {
      assert w % Pow2(k) == 0;
      ToBitsHigh(0, n, t);
    } else if t > 0 {
      HalveMod(w, Pow2(k - 1));
      ToBitsMod(w / 2, k - 1, n - 1, t - 1);
    } else {
      HalveMod(w, Pow2(k - 1));
    }
  }

  lemma {:induction false} AllOnes(n: nat, m: nat, t: nat)
    requires t < m
    ensures ToBits(Pow2(n) - 1, m)[t] == (t < n)
  {
    if n == 0 {
      ToBitsHigh(0, m, t);
    } else if t > 0 {
      assert (Pow2(n) - 1) / 2 == Pow2(n - 1) - 1;
      AllOnes(n - 1, m - 1, t - 1);
    }
  }

  /** Dropping the `s` low digits divides by 2^s. */
  lemma {:induction false} DropDigits(b: seq<bool>, s: nat)
    requires s <= |b|
    ensures FromBits(b[s..]) == FromBits(b) / Pow2(s)
  {
    if s > 0 {
      DropDigits(b[1..], s - 1);
      assert b[1..][s - 1..] == b[s..];
      DivDouble(FromBits(b[1..]), Pow2(s - 1), if b[0] then 1 else 0);
    }
  }

  lemma DivDouble(rest: nat, p: nat, low: nat)
    requires p >= 1 && low <= 1
    ensures (low + 2 * rest) / (2 * p) == rest / p
  {
    var q, r := rest / p, rest % p;
    assert low + 2 * rest == (2 * p) * q + (low + 2 * r);
    DivModUnique(low + 2 * rest, 2 * p, q, low + 2 * r);
  }

  lemma {:induction false} AllZeros(n: nat)
    ensures FromBits(Zeros(n)) == 0
  {
    if n > 0 {
      AllZeros(n - 1);
      assert Zeros(n)[1..] == Zeros(n - 1);
    }
  }

  /** Clear digits on top do not change a number. */
  lemma {:induction false} ZerosOnTop(b: seq<bool>, n: nat)
    ensures FromBits(b + Zeros(n)) == FromBits(b)
  {
    if b == [] {
      AllZeros(n);
      assert b + Zeros(n) == Zeros(n);
    } else {
      ZerosOnTop(b[1..], n);
      assert (b + Zeros(n))[1..] == b[1..] + Zeros(n);
    }
  }

  // ---------------------------------------------------------------------
  // Words

  function Zeros(n: nat): (b: seq<bool>)
    ensures |b| == n
  {
    seq(n, i => false)
  }

  /** The word with every bit clear. */
  const ZeroWord: Word := Zeros(64)

  /** The number a word stands for. */
  function ToNat(w: Word): U64 {
    Pow2Word();
    FromBits(w)
  }

  /** The word standing for a number. */
  function FromNat(n: U64): Word {
    ToBits(n, 64)
  }

  lemma NatRoundTrip(n: U64)
    ensures ToNat(FromNat(n)) == n
  {
    Pow2Word();
    FromToBits(n, 64);
  }

  lemma WordRoundTrip(w: Word)
    ensures FromNat(ToNat(w)) == w
  {
    ToFromBits(w);
  }

  /** `w >> s`. */
  function Shr(w: Word, s: nat): Word
    requires s < 64
  {
    w[s..] + Zeros(s)
  }

  /** `w << s`: bits shifted past bit 63 are lost. */
  function Shl(w: Word, s: nat): Word
    requires s < 64
  {
    Zeros(s) + w[..64 - s]
  }

  /** `a | b`. */
  function Or(a: Word, b: Word): Word {
    seq(64, t requires 0 <= t < 64 => a[t] || b[t])
  }

  /** `a & b`. */
  function And(a: Word, b: Word): Word {
    seq(64, t requires 0 <= t < 64 => a[t] && b[t])
  }

  /** `~a`. */
  function Not(a: Word): Word {
    seq(64, t requires 0 <= t < 64 => !a[t])
  }

  /** The low `n` bits set. */
  function Mask(n: nat): Word
    requires n <= 64
  {
    seq(64, t requires 0 <= t < 64 => t < n)
  }

  // ---------------------------------------------------------------------
  // The operators' arithmetic meaning

  /** `Mask(n)` is the number `(1 << n) - 1` the source computes. */
  lemma MaskValue(n: nat)
    requires n <= 64
    ensures ToNat(Mask(n)) == Pow2(n) - 1
  {
    Pow2Monotone(n, 64);
    Pow2Word();
    forall t | 0 <= t < 64
      ensures Mask(n)[t] == ToBits(Pow2(n) - 1, 64)[t]
    {
      AllOnes(n, 64, t);
    }
    assert Mask(n) == ToBits(Pow2(n) - 1, 64);
    FromToBits(Pow2(n) - 1, 64);
  }

  /** Masking with the low `n` bits is reduction modulo 2^n. */
  lemma AndMaskValue(v: U64, n: nat)
    requires n <= 64
    ensures ToNat(And(FromNat(v), Mask(n))) == v % Pow2(n)
  {
    Pow2Word();
    Pow2Monotone(n, 64);
    forall t | 0 <= t < 64
      ensures And(FromNat(v), Mask(n))[t] == ToBits(v % Pow2(n), 64)[t]
    {
      ToBitsMod(v, n, 64, t);
    }
    assert And(FromNat(v), Mask(n)) == ToBits(v % Pow2(n), 64);
    FromToBits(v % Pow2(n), 64);
  }

  /** `w >> s` divides by 2^s. */
  lemma ShrValue(w: Word, s: nat)
    requires s < 64
    ensures ToNat(Shr(w, s)) == ToNat(w) / Pow2(s)
  {
    DropDigits(w, s);
    ZerosOnTop(w[s..], s);
  }

  /** A number below 2^n has no bit set at or above n. */
  lemma SmallHasNoHighBits(v: U64, n: nat, t: nat)
    requires n <= t < 64 && v < Pow2(n)
    ensures !FromNat(v)[t]
  {
    Pow2Monotone(n, t);
    ToBitsHigh(v, 64, t);
  }
}
