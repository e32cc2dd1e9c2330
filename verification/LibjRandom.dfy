/** Multiplicative congruential generators by split-word multiplication.
  *
  * For the nonnegative words that occur, a mask of low bits is a remainder, a right
  * shift a quotient, and the union of disjoint bit fields a sum.
  */
module LibjRandom {
  import opened Basics

  const M := 0x7fff_ffff
  const PERIOD := 0x7fff_fffe
  const TWO_TO_31 := 0x8000_0000

  /** A seed between 1 and the period of the generators. */
  predicate IsSeed(s: int) {
    1 <= s < M
  }

  lemma {:induction false} Grows(d: int, m: int)
    requires m > 0 && d >= 1
    ensures d * m >= m && -d * m <= -m
  {
    assert (d - 1) * m >= 0;
  }

  lemma {:induction false} NoMultiple(d: int, m: int)
    requires m > 0 && -m < d * m < m
    ensures d == 0
  {
    if d > 0 {
      Grows(d, m);
    } else if d < 0 {
      Grows(-d, m);
    }
  }

  /** A remainder is determined by any representation. */
  lemma {:induction false} ModIs(x: int, r: int, k: int, m: int)
    requires m > 0 && x == r + k * m && 0 <= r < m
    ensures x % m == r
  {
    var k', r' := x / m, x % m;
    assert x == k' * m + r';
    assert (k' - k) * m == k' * m - k * m;
    NoMultiple(k' - k, m);
  }

  /** Multiplication by an invertible factor never yields a multiple of the modulus. */
  lemma {:induction false} NeverZero(a: int, inverse: int, t: int, m: int, s: int, k: int)
    requires m > 0 && a * inverse == 1 + t * m && 0 < s < m
    ensures a * s != k * m
  {
    if a * s == k * m {
      calc {
        s;
        s * (1 + t * m) - s * (t * m);
        s * (a * inverse) - s * (t * m);
        (a * s) * inverse - (s * t) * m;
        (k * m) * inverse - (s * t) * m;
        (k * inverse - s * t) * m;
      }
      NoMultiple(k * inverse - s * t, m);
    }
  }

  // ---------- libj_lrand ----------

  const LEWIS := 16807
  const LEWIS_INVERSE := 1407677000

  function Lrand(sn: int): int
    requires IsSeed(sn)
  {
    var L := 16807 * (sn % 0x1_0000);
    var H := 16807 * (sn / 0x1_0000);
    var q := (H % 0x8000) * 0x1_0000 + L;
    var r := q - M + H / 0x8000;
    if r <= 0 then r + M else r
  }

  /** The generator computes the product modulo 2^31 - 1, and it stays on seeds. */
  lemma {:induction false} LrandIsProduct(s: int)
    requires IsSeed(s)
    ensures Lrand(s) == (LEWIS * s) % M
    ensures IsSeed(Lrand(s))
  {
    var L, H := 16807 * (s % 0x1_0000), 16807 * (s / 0x1_0000);
    var q, p := (H % 0x8000) * 0x1_0000 + L, H / 0x8000;
    assert LEWIS * s == q + p * TWO_TO_31;
    var r := Lrand(s);
    var k := if q + p - M <= 0 then p else p + 1;
    assert LEWIS * s == r + k * M;
    NeverZero(LEWIS, LEWIS_INVERSE, 11017, M, s, k + 1);
    ModIs(LEWIS * s, r, k, M);
  }

  /** Long division by the inverse: a bijection on the seeds. */
  lemma {:induction false} LrandIsBijective(s: int)
    requires IsSeed(s)
    ensures (LEWIS_INVERSE * Lrand(s)) % M == s
    ensures IsSeed((LEWIS_INVERSE * s) % M) && Lrand((LEWIS_INVERSE * s) % M) == s
  {
    LrandIsProduct(s);
    Unmultiply(LEWIS, LEWIS_INVERSE, 11017, M, s);
    NeverZero(LEWIS_INVERSE, LEWIS, 11017, M, s, (LEWIS_INVERSE * s) / M);
    LrandIsProduct((LEWIS_INVERSE * s) % M);
    Unmultiply(LEWIS_INVERSE, LEWIS, 11017, M, s);
  }

  /** Multiplying by a and then by its inverse modulo m gives back s. */
  lemma {:induction false} Unmultiply(a: int, inverse: int, t: int, m: int, s: int)
    requires m > 0 && a * inverse == 1 + t * m && 0 <= s < m
    ensures (inverse * ((a * s) % m)) % m == s
  {
    var k, r := (a * s) / m, (a * s) % m;
    calc {
      inverse * r;
      inverse * (a * s - k * m);
      (a * inverse) * s - inverse * (k * m);
      (1 + t * m) * s - inverse * (k * m);
      s + (t * s) * m - (inverse * k) * m;
      s + (t * s - inverse * k) * m;
    }
    ModIs(inverse * r, s, t * s - inverse * k, m);
  }

  // ---------- 32-bit words ----------

  predicate IsWord(x: int) {
    -TWO_TO_31 <= x < TWO_TO_31
  }

  /** The value of x in a 32-bit two's complement word. */
  function Wrap(x: int): int {
    (x + TWO_TO_31) % TWO_TO_32 - TWO_TO_31
  }

  /** libj_lrand with a wrap-around after every operation. */
  function LrandWord(sn: int): int
    requires IsSeed(sn)
  {
    var L := Wrap(16807 * (sn % 0x1_0000));
    var H := Wrap(16807 * (sn / 0x1_0000));
    var q := Wrap(Wrap((H % 0x8000) * 0x1_0000) + L);
    var r := Wrap(Wrap(q - M) + H / 0x8000);
    if r <= 0 then Wrap(r + M) else r
  }

  lemma {:induction false} WrapIs(x: int)
    ensures IsWord(x) ==> Wrap(x) == x
    ensures TWO_TO_31 <= x < TWO_TO_31 + TWO_TO_32 ==> Wrap(x) == x - TWO_TO_32
    ensures -TWO_TO_31 - TWO_TO_32 <= x < -TWO_TO_31 ==> Wrap(x) == x + TWO_TO_32
  {
  }

  /** Word length does not matter, although the low word of the product may overflow. */
  lemma {:induction false} LrandWordIsLrand(s: int)
    requires IsSeed(s)
    ensures LrandWord(s) == Lrand(s)
  {
    LrandIsProduct(s);
    var L, H := 16807 * (s % 0x1_0000), 16807 * (s / 0x1_0000);
    WrapIs(L);
    WrapIs(H);
    WordSteps((H % 0x8000) * 0x1_0000, L, H / 0x8000);
  }

  /** The wrapped low word comes back into range when the modulus is subtracted. */
  lemma {:induction false} WordSteps(high: int, L: int, c: int)
    requires 0 <= high < TWO_TO_31 && 0 <= L < 0x4fff_ffff && 0 <= c < 0x8000
    ensures Wrap(high) == high
    ensures var r := high + L - M + c;
            Wrap(Wrap(Wrap(high + L) - M) + c) == r && (r <= 0 ==> Wrap(r + M) == r + M)
  {
    WrapIs(high);
    WrapIs(high + L);
    WrapIs(Wrap(high + L) - M);
    WrapIs(high + L - M + c);
    WrapIs(high + L + c);
  }

  // ---------- libj_fishman ----------

  const FISHMAN := 69621
  const FISHMAN_INVERSE := 739517106

  function Fishman(sn: int): int
    requires IsSeed(sn)
  {
    var L, H := sn % 0x1_0000, sn / 0x1_0000;
    var q := 0xff5 * L;
    var p := 0xff5 * H + q / 0x1_0000;
    var q' := (p % 0x8000) * 0x1_0000 + q % 0x1_0000;
    var P := H + L / 0x1_0000;
    var L' := (P % 0x8000) * 0x1_0000 + L % 0x1_0000;
    FishmanSum(q', p, P, L')
  }

  /** The two halves of the generator come together. */
  function FishmanSum(q: int, p: int, P: int, L: int): int {
    var Lo := q + (L % 0x8000) * 0x1_0000;
    var Hi := p / 0x8000 + P / 0x8000 + (L / 0x8000) % 0x1_0000;
    var r := Lo - M + Hi;
    if r <= 0 then r + M else r
  }

  /** The low 15 bits of s bound the low word of the product from both sides: when they
    * are all ones, its low half is known, and otherwise it is smaller by 2^16. */
  lemma {:induction false} FishmanFits(s: int, q: int, p: int)
    requires IsSeed(s)
    requires q == 0xff5 * (s % 0x1_0000) && p == 0xff5 * (s / 0x1_0000) + q / 0x1_0000
    ensures (p % 0x8000) * 0x1_0000 + q % 0x1_0000 + (s % 0x8000) * 0x1_0000 + p / 0x8000 + s / 0x8000 <= 2 * M
  {
    var a, b, c := p % 0x8000, q % 0x1_0000, s % 0x8000;
    HighBits(s, q, p);
    if c == 0x7fff {
      LowHalf(s, q);
      assert a <= 0x7fff && b <= 61451;
    } else {
      assert a <= 0x7fff && b <= 0xffff && c <= 0x7ffe;
    }
  }

  lemma {:induction false} HighBits(s: int, q: int, p: int)
    requires IsSeed(s)
    requires q == 0xff5 * (s % 0x1_0000) && p == 0xff5 * (s / 0x1_0000) + q / 0x1_0000
    ensures p / 0x8000 + s / 0x8000 <= 4084 + 65535
  {
    QuotientBelow(s, 0x1_0000, 0x8000);
    QuotientBelow(q, 0x1_0000, 4085);
    QuotientBelow(p, 0x8000, 4085);
    QuotientBelow(s, 0x8000, 65536);
  }

  lemma {:induction false} QuotientBelow(x: int, d: int, n: int)
    requires d > 0 && x < n * d
    ensures x / d < n
  {
    if x / d >= n {
      TimesMonotone(d, n, x / d);
    }
  }

  lemma {:induction false} LowHalf(s: int, q: int)
    requires s % 0x8000 == 0x7fff && q == 0xff5 * (s % 0x1_0000)
    ensures q % 0x1_0000 <= 61451
  {
    var L := s % 0x1_0000;
    assert L == 0x7fff || L == 0xffff;
  }

  /** The two partial products recombine: the shifted copy of s is s itself. */
  lemma {:induction false} FishmanWords(s: int, q: int, p: int, r: int)
    requires IsSeed(s)
    requires q == 0xff5 * (s % 0x1_0000) && p == 0xff5 * (s / 0x1_0000) + q / 0x1_0000
    requires r == (p % 0x8000) * 0x1_0000 + q % 0x1_0000 + (s % 0x8000) * 0x1_0000 - M + p / 0x8000 + s / 0x8000
    ensures Fishman(s) == if r <= 0 then r + M else r
  {
    ShiftedCopy(s, s % 0x1_0000, s / 0x1_0000);
  }

  lemma {:induction false} ShiftedCopy(s: int, L: int, H: int)
    requires IsSeed(s) && L == s % 0x1_0000 && H == s / 0x1_0000
    ensures (H + L / 0x1_0000) / 0x8000 == 0
    ensures ((H + L / 0x1_0000) % 0x8000) * 0x1_0000 + L % 0x1_0000 == s
    ensures (s / 0x8000) % 0x1_0000 == s / 0x8000
  {
    assert H < 0x8000;
    assert L / 0x1_0000 == 0 && L % 0x1_0000 == L;
    assert H % 0x8000 == H;
  }

  lemma {:induction false} FishmanSplit(s: int, q: int, p: int)
    requires q == 0xff5 * (s % 0x1_0000) && p == 0xff5 * (s / 0x1_0000) + q / 0x1_0000
    ensures FISHMAN * s == (p % 0x8000) * 0x1_0000 + q % 0x1_0000 + (s % 0x8000) * 0x1_0000
                           + (p / 0x8000 + s / 0x8000) * TWO_TO_31
  {
    assert p == (p / 0x8000) * 0x8000 + p % 0x8000;
    assert s == (s / 0x8000) * 0x8000 + s % 0x8000;
    assert q == (q / 0x1_0000) * 0x1_0000 + q % 0x1_0000;
  }

  /** One correction suffices: the generator computes the product modulo 2^31 - 1. */
  lemma {:induction false} FishmanIsProduct(s: int)
    requires IsSeed(s)
    ensures Fishman(s) == (FISHMAN * s) % M
    ensures IsSeed(Fishman(s))
  {
    var q := 0xff5 * (s % 0x1_0000);
    var p := 0xff5 * (s / 0x1_0000) + q / 0x1_0000;
    var high := p / 0x8000 + s / 0x8000;
    var r := (p % 0x8000) * 0x1_0000 + q % 0x1_0000 + (s % 0x8000) * 0x1_0000 - M + high;
    FishmanWords(s, q, p, r);
    FishmanSplit(s, q, p);
    FishmanFits(s, q, p);
    assert FISHMAN * s == r + (high + 1) * M;
    NeverZero(FISHMAN, FISHMAN_INVERSE, 23975, M, s, high);
    NeverZero(FISHMAN, FISHMAN_INVERSE, 23975, M, s, high + 1);
    NeverZero(FISHMAN, FISHMAN_INVERSE, 23975, M, s, high + 2);
    OneCorrection(FISHMAN * s, r, high);
  }

  /** A value that is no multiple of the modulus needs at most one correction. */
  lemma {:induction false} OneCorrection(x: int, r: int, high: int)
    requires x == r + (high + 1) * M && -M <= r <= M
    requires x != high * M && x != (high + 1) * M && x != (high + 2) * M
    ensures x % M == if r <= 0 then r + M else r
    ensures IsSeed(if r <= 0 then r + M else r)
  {
    if r <= 0 {
      ModIs(x, r + M, high, M);
    } else {
      ModIs(x, r, high + 1, M);
    }
  }

  /** libj_fishman in words: W is applied to the result of every operation that may overflow. */
  function FishmanIn(W: int -> int, sn: int): int
    requires IsSeed(sn)
  {
    var L, H := sn % 0x1_0000, sn / 0x1_0000;
    var q := W(0xff5 * L);
    var p := W(W(0xff5 * H) + q / 0x1_0000);
    var q' := W((p % 0x8000) * 0x1_0000) + q % 0x1_0000;
    var P := W(H + L / 0x1_0000);
    var L' := W((P % 0x8000) * 0x1_0000) + L % 0x1_0000;
    FishmanSumWord(q', p, P, L')
  }

  function FishmanWord(sn: int): int
    requires IsSeed(sn)
  {
    FishmanIn(x => Wrap(x), sn)
  }

  /** Nothing overflows before the last sum. */
  lemma {:induction false} FishmanFirstHalf(W: int -> int, s: int, q: int, p: int)
    requires IsSeed(s) && q == 0xff5 * (s % 0x1_0000) && p == 0xff5 * (s / 0x1_0000) + q / 0x1_0000
    requires W(q) == q && W(0xff5 * (s / 0x1_0000)) == 0xff5 * (s / 0x1_0000) && W(p) == p
    requires W((p % 0x8000) * 0x1_0000) == (p % 0x8000) * 0x1_0000
    requires
      var P := s / 0x1_0000 + s % 0x1_0000 / 0x1_0000;
      W(P) == P && W((P % 0x8000) * 0x1_0000) == (P % 0x8000) * 0x1_0000
    ensures
      var P := s / 0x1_0000 + s % 0x1_0000 / 0x1_0000;
      FishmanIn(W, s) == FishmanSumWord((p % 0x8000) * 0x1_0000 + q % 0x1_0000, p, P,
                                        (P % 0x8000) * 0x1_0000 + s % 0x1_0000 % 0x1_0000)
  {
  }

  function FishmanSumWord(q: int, p: int, P: int, L: int): int {
    var Lo := Wrap(q + Wrap((L % 0x8000) * 0x1_0000));
    var Hi := Wrap(Wrap(p / 0x8000 + P / 0x8000) + (L / 0x8000) % 0x1_0000);
    var r := Wrap(Wrap(Lo - M) + Hi);
    if r <= 0 then Wrap(r + M) else r
  }

  lemma {:induction false} FishmanHalves(s: int, q: int, p: int, P: int)
    requires IsSeed(s) && q == 0xff5 * (s % 0x1_0000) && p == 0xff5 * (s / 0x1_0000) + q / 0x1_0000
    requires P == s / 0x1_0000 + s % 0x1_0000 / 0x1_0000
    ensures Fishman(s) == FishmanSum((p % 0x8000) * 0x1_0000 + q % 0x1_0000, p, P, s)
  {
    ShiftedCopy(s, s % 0x1_0000, s / 0x1_0000);
  }

  lemma {:induction false} FishmanWordHalves(s: int, q: int, p: int, P: int)
    requires IsSeed(s) && q == 0xff5 * (s % 0x1_0000) && p == 0xff5 * (s / 0x1_0000) + q / 0x1_0000
    requires P == s / 0x1_0000 + s % 0x1_0000 / 0x1_0000
    ensures FishmanIn(x => Wrap(x), s) == FishmanSumWord((p % 0x8000) * 0x1_0000 + q % 0x1_0000, p, P,
                                                         (P % 0x8000) * 0x1_0000 + s % 0x1_0000 % 0x1_0000)
  {
    ProductsFit(s, s % 0x1_0000, s / 0x1_0000, q, p);
    CopyFits(s, s % 0x1_0000, s / 0x1_0000);
    FishmanFirstHalf(x => Wrap(x), s, q, p);
  }

  /** Word length does not matter here either, although the sum of the low words overflows. */
  lemma {:induction false} FishmanWordIsFishman(s: int)
    requires IsSeed(s)
    ensures FishmanWord(s) == Fishman(s)
  {
    var q := 0xff5 * (s % 0x1_0000);
    var p := 0xff5 * (s / 0x1_0000) + q / 0x1_0000;
    FishmanHalves(s, q, p, s / 0x1_0000 + s % 0x1_0000 / 0x1_0000);
    FishmanWordHalves(s, q, p, s / 0x1_0000 + s % 0x1_0000 / 0x1_0000);
    ShiftedCopy(s, s % 0x1_0000, s / 0x1_0000);
    SumsAgree(s, q, p, s / 0x1_0000 + s % 0x1_0000 / 0x1_0000);
  }

  lemma {:induction false} SumsAgree(s: int, q: int, p: int, P: int)
    requires IsSeed(s) && q == 0xff5 * (s % 0x1_0000) && p == 0xff5 * (s / 0x1_0000) + q / 0x1_0000
    requires P == s / 0x1_0000 + s % 0x1_0000 / 0x1_0000
    ensures
      var low := (p % 0x8000) * 0x1_0000 + q % 0x1_0000;
      FishmanSumWord(low, p, P, s) == FishmanSum(low, p, P, s)
  {
    ShiftedCopy(s, s % 0x1_0000, s / 0x1_0000);
    HighBits(s, q, p);
    FishmanFits(s, q, p);
    SumFits((p % 0x8000) * 0x1_0000 + q % 0x1_0000, p, P, s);
  }

  lemma {:induction false} SumFits(q: int, p: int, P: int, s: int)
    requires IsSeed(s) && 0 <= q < TWO_TO_31 && 0 <= p && P / 0x8000 == 0 && p / 0x8000 + s / 0x8000 < 70000
    requires (s / 0x8000) % 0x1_0000 == s / 0x8000
    requires q + (s % 0x8000) * 0x1_0000 + p / 0x8000 + s / 0x8000 <= 2 * M
    ensures FishmanSumWord(q, p, P, s) == FishmanSum(q, p, P, s)
  {
    var high, Hi := (s % 0x8000) * 0x1_0000, p / 0x8000 + s / 0x8000;
    WrapIs(high);
    WrapIs(p / 0x8000 + P / 0x8000);
    WrapIs(Hi);
    LowWraps(q, high, Hi);
  }

  lemma {:induction false} ProductsFit(s: int, L: int, H: int, q: int, p: int)
    requires IsSeed(s) && L == s % 0x1_0000 && H == s / 0x1_0000 && q == 0xff5 * L && p == 0xff5 * H + q / 0x1_0000
    ensures Wrap(q) == q && Wrap(0xff5 * H) == 0xff5 * H && Wrap(p) == p
    ensures Wrap((p % 0x8000) * 0x1_0000) == (p % 0x8000) * 0x1_0000
  {
    QuotientBelow(s, 0x1_0000, 0x8000);
    QuotientBelow(q, 0x1_0000, 4085);
    WrapIs(q);
    WrapIs(0xff5 * H);
    WrapIs(p);
    WrapIs((p % 0x8000) * 0x1_0000);
  }

  lemma {:induction false} CopyFits(s: int, L: int, H: int)
    requires IsSeed(s) && L == s % 0x1_0000 && H == s / 0x1_0000
    ensures Wrap(H + L / 0x1_0000) == H + L / 0x1_0000
    ensures Wrap(((H + L / 0x1_0000) % 0x8000) * 0x1_0000) == ((H + L / 0x1_0000) % 0x8000) * 0x1_0000
  {
    WrapIs(H + L / 0x1_0000);
    WrapIs(((H + L / 0x1_0000) % 0x8000) * 0x1_0000);
  }

  lemma {:induction false} LowWraps(q: int, high: int, Hi: int)
    requires 0 <= q < TWO_TO_31 && 0 <= high < TWO_TO_31 && 0 <= Hi < 70000 && q + high + Hi <= 2 * M
    ensures
      var r := q + high - M + Hi;
      Wrap(Wrap(Wrap(q + high) - M) + Hi) == r && (r <= 0 ==> Wrap(r + M) == r + M)
  {
    WrapIs(q + high);
    WrapIs(Wrap(q + high) - M);
    WrapIs(q + high - M + Hi);
    WrapIs(q + high + Hi);
  }

  // ---------- libj_crand ----------

  /** The combined generator and its two seeds. */
  class Combined {
    var s1: int
    var s2: int

    ghost predicate Valid()
      reads this
    {
      IsSeed(s1) && IsSeed(s2)
    }

    constructor ()
      ensures Valid() && s1 == 1973272912 && s2 == 747177549
    {
      s1 := 1973272912;
      s2 := 747177549;
    }

    /** Advances both generators; the difference is reduced into 1 .. 2^31 - 2. */
    method Crand() returns (sn: int)
      requires Valid()
      modifies this
      ensures Valid() && s1 == (LEWIS * old(s1)) % M && s2 == (FISHMAN * old(s2)) % M
      ensures 1 <= sn <= PERIOD && (sn - (s1 - s2)) % PERIOD == 0
    {
      LrandIsProduct(s1);
      FishmanIsProduct(s2);
      s1 := Lrand(s1);
      s2 := Fishman(s2);
      sn := s1 - s2;
      if sn < 1 {
        sn := sn + PERIOD;
      }
    }
  }

  // ---------- the forms after Schrage ----------

  /** a * s modulo a * q + r without a product larger than the modulus. */
  function Schrage(a: int, q: int, r: int, m: int, sn: int): int
    requires q > 0
  {
    var k := sn / q;
    var t := a * (sn - k * q) - r * k;
    if t <= 0 then t + m else t
  }

  lemma {:induction false} SchrageIsProduct(a: int, q: int, r: int, m: int, inverse: int, t: int, s: int)
    requires a > 0 && 0 <= r < q && m == a * q + r && 0 < s < m
    requires a * inverse == 1 + t * m
    ensures Schrage(a, q, r, m, s) == (a * s) % m
    ensures 0 < Schrage(a, q, r, m, s) < m
  {
    var k := s / q;
    var rest := s - k * q;
    var g := a * rest - r * k;
    SchrageBounds(a, q, r, m, s);
    SchrageSplit(a, q, r, m, s, k);
    NeverZero(a, inverse, t, m, s, k);
    SchrageReduced(a * s, g, k, m);
  }

  lemma {:induction false} SchrageSplit(a: int, q: int, r: int, m: int, s: int, k: int)
    requires m == a * q + r
    ensures a * s == a * (s - k * q) - r * k + k * m
  {
    calc {
      a * (s - k * q) - r * k + k * m;
      a * s - a * (k * q) - r * k + k * (a * q + r);
      a * s;
    }
  }

  lemma {:induction false} SchrageReduced(x: int, g: int, k: int, m: int)
    requires m > 0 && x == g + k * m && -m < g < m && x != k * m
    ensures x % m == if g <= 0 then g + m else g
  {
    if g <= 0 {
      assert g + k * m == (g + m) + (k - 1) * m;
      ModIs(x, g + m, k - 1, m);
    } else {
      ModIs(x, g, k, m);
    }
  }

  lemma {:induction false} TimesMonotone(a: int, x: int, y: int)
    requires a >= 0 && x <= y
    ensures a * x <= a * y
  {
    assert a * (y - x) >= 0;
  }

  /** Both terms of the difference are below the modulus. */
  lemma {:induction false} SchrageBounds(a: int, q: int, r: int, m: int, s: int)
    requires a > 0 && 0 <= r < q && m == a * q + r && 0 < s < m
    ensures 0 <= a * (s - s / q * q) < m && 0 <= r * (s / q) < m
  {
    var k := s / q;
    var rest := s - k * q;
    assert rest == s % q;
    TimesMonotone(a, 0, rest);
    TimesMonotone(a, rest, q - 1);
    assert a * (q - 1) == a * q - a;
    TimesMonotone(k, 0, r);
    TimesMonotone(k, r, q);
  }

  function Randf(sn: int): int { Schrage(48271, 44488, 3399, M, sn) }

  function Lecuyer(sn: int): int { Schrage(39373, 54542, 1481, M, sn) }

  function Randl1(sn: int): int { Schrage(40692, 52774, 3791, 0x7fff_ff07, sn) }

  /** The three generators in this form compute their products and stay on seeds. */
  lemma {:induction false} SchrageGenerators(s: int)
    requires IsSeed(s)
    ensures Randf(s) == (48271 * s) % M && IsSeed(Randf(s))
    ensures Lecuyer(s) == (39373 * s) % M && IsSeed(Lecuyer(s))
    ensures s < 0x7fff_ff07 ==> Randl1(s) == (40692 * s) % 0x7fff_ff07 && 0 < Randl1(s) < 0x7fff_ff07
  {
    SchrageIsProduct(48271, 44488, 3399, M, 1899818559, 42704, s);
    SchrageIsProduct(39373, 54542, 1481, M, 1451472705, 26612, s);
    if s < 0x7fff_ff07 {
      SchrageIsProduct(40692, 52774, 3791, 0x7fff_ff07, 1481316021, 28069, s);
    }
  }
}
