/** Unsigned 64-bit machine words (the C type uint64_t, which fi_addr_t and
    every flag word in the domain interface are) and the C operators that the
    address encoder applies to them.

    A word is the sequence of its 64 bits, least significant first: bit j
    has weight 2^j. The shift and bitwise operators are defined bit by bit, as
    sections 6.5.7, 6.5.10 and 6.5.12 of ISO/IEC 9899:2011 describe them, and
    `Value` gives the number a word denotes, so that the arithmetic meaning
    the standard gives the shifts can be proved about them. */
module Word64 {

  const WordSize: nat := 64

  type Word = w: seq<bool> | |w| == WordSize witness seq(WordSize, _ => false)

  /** The C type int, 32 bits wide on the LP64 and LLP64 platforms. */
  type CInt = i: int | -0x8000_0000 <= i < 0x8000_0000

  /** The word with no bit set. */
  const Zero: Word := seq(WordSize, _ => false)

  function Pow2(n: nat): (p: nat)
    ensures p > 0
  {
    if n == 0 then 1 else 2 * Pow2(n - 1)
  }

  /** The number a bit sequence denotes, least significant bit first. */
  function Value(s: seq<bool>): (v: nat)
    ensures v < Pow2(|s|)
  {
    if s == [] then 0 else (if s[0] then 1 else 0) + 2 * Value(s[1..])
  }

  /** The n low-order bits of the two's-complement representation of i:
      bit j is the parity of i / 2^j. Dafny's / and % are Euclidean, so a
      negative i keeps yielding its sign bits, exactly as the conversion to
      an unsigned type does. */
  function Bits(i: int, n: nat): seq<bool>
  {
    seq(n, j requires 0 <= j < n => (i / Pow2(j)) % 2 == 1)
  }

  /** The C conversion `(uint64_t) i` of a signed integer. */
  function FromInt(i: int): Word
  {
    Bits(i, WordSize)
  }

  /** `w << n`; the C standard leaves the shift undefined unless 0 <= n < 64. */
  function ShiftLeft(w: Word, n: int): Word
    requires 0 <= n < WordSize
  {
    seq(WordSize, j requires 0 <= j < WordSize => j >= n && w[j - n])
  }

  /** `w >> n` on an unsigned word; defined only for 0 <= n < 64. */
  function ShiftRight(w: Word, n: int): Word
    requires 0 <= n < WordSize
  {
    seq(WordSize, j requires 0 <= j < WordSize => j + n < WordSize && w[j + n])
  }

  /** `a | b`. */
  function BitOr(a: Word, b: Word): Word
  {
    seq(WordSize, j requires 0 <= j < WordSize => a[j] || b[j])
  }

  /** `a & b`. */
  function BitAnd(a: Word, b: Word): Word
  {
    seq(WordSize, j requires 0 <= j < WordSize => a[j] && b[j])
  }

  /** The word whose only set bit is bit n. */
  predicate IsBit(w: Word, n: nat)
  {
    forall j | 0 <= j < WordSize :: w[j] <==> j == n
  }

  function Zeros(n: nat): (s: seq<bool>)
  {
    seq(n, _ => false)
  }

  // ---------------------------------------------------------------------
  // Arithmetic helpers

  lemma {:induction false} Pow2Add(a: nat, b: nat)
    ensures Pow2(a + b) == Pow2(a) * Pow2(b)
  {
    if a > 0 {
      Pow2Add(a - 1, b);
    }
  }

  lemma MulAtLeast(d: int, k: int)
    requires d > 0 && k >= 1
    ensures d * k >= d
  {
  }

  /** Euclidean division has one quotient and one remainder. */
  lemma DivModUnique(x: int, d: int, q: int, r: int)
    requires d > 0 && 0 <= r < d && x == d * q + r
    ensures x / d == q && x % d == r
  {
    var q', r' := x / d, x % d;
    assert d * (q - q') == (d * q + r) - (d * q' + r') + (r' - r);
    if q' < q {
      MulAtLeast(d, q - q');
    } else if q < q' {
      MulAtLeast(d, q' - q);
    }
  }

  /** x % d == x holds exactly for the x that already lie in [0, d). */
  lemma ModIdentityIff(x: int, d: int)
    requires d > 0
    ensures x % d == x <==> 0 <= x < d
  {
    if 0 <= x < d {
      DivModUnique(x, d, 0, x);
    }
  }

  // ---------------------------------------------------------------------
  // Value of bit sequences

  lemma Distribute(low: int, a: int, p: int, b: int)
    ensures low + 2 * (a + p * b) == low + 2 * a + (2 * p) * b
  {
  }

  lemma {:induction false} ValueConcat(a: seq<bool>, b: seq<bool>)
    ensures Value(a + b) == Value(a) + Pow2(|a|) * Value(b)
  {
    if a != [] {
      assert (a + b)[1..] == a[1..] + b;
      ValueConcat(a[1..], b);
      assert (a + b)[0] == a[0];
      assert Value(a + b) == (if a[0] then 1 else 0) + 2 * Value(a[1..] + b);
      Distribute(if a[0] then 1 else 0, Value(a[1..]), Pow2(|a| - 1), Value(b));
    } else {
      assert a + b == b;
    }
  }

  /** A bit sequence denotes zero exactly when no bit of it is set. */
  lemma {:induction false} ValueZeroIff(s: seq<bool>)
    ensures Value(s) == 0 <==> forall j | 0 <= j < |s| :: !s[j]
  {
    if s != [] {
      ValueZeroIff(s[1..]);
      if Value(s) == 0 {
        forall j | 0 <= j < |s| ensures !s[j] {
          if j > 0 {
            assert s[j] == s[1..][j - 1];
          }
        }
      }
      if forall j | 0 <= j < |s| :: !s[j] {
        assert forall j | 0 <= j < |s| - 1 :: !s[1..][j] by {
          forall j | 0 <= j < |s| - 1 ensures !s[1..][j] {
            assert s[1..][j] == s[j + 1];
          }
        }
      }
    }
  }

  /** Two bit sequences of one length are equal when their values are. */
  lemma {:induction false} ValueInjective(a: seq<bool>, b: seq<bool>)
    requires |a| == |b| && Value(a) == Value(b)
    ensures a == b
  {
    if a != [] {
      ValueInjective(a[1..], b[1..]);
      assert a == [a[0]] + a[1..];
      assert b == [b[0]] + b[1..];
    }
  }

  /** Dividing by 2p is halving and then dividing by p; the remainder
      modulo 2p is the lowest bit plus twice the remainder of the half. */
  lemma HalveDivMod(i: int, p: int)
    requires p > 0
    ensures i / (2 * p) == (i / 2) / p
    ensures i % (2 * p) == i % 2 + 2 * ((i / 2) % p)
  {
    var q, r := (i / 2) / p, (i / 2) % p;
    assert i == 2 * (i / 2) + i % 2;
    assert i / 2 == p * q + r;
    assert i == (2 * p) * q + (2 * r + i % 2);
    DivModUnique(i, 2 * p, q, 2 * r + i % 2);
  }

  /** The lowest bit of i followed by the bits of i / 2. */
  lemma BitsCons(i: int, n: nat)
    requires n > 0
    ensures Bits(i, n) == [i % 2 == 1] + Bits(i / 2, n - 1)
  {
    var t := [i % 2 == 1] + Bits(i / 2, n - 1);
    forall j | 0 <= j < n ensures Bits(i, n)[j] == t[j] {
      if j > 0 {
        HalveDivMod(i, Pow2(j - 1));
      }
    }
  }

  /** The bits of the two's-complement representation denote i modulo 2^n. */
  lemma {:induction false} BitsValue(i: int, n: nat)
    ensures Value(Bits(i, n)) == i % Pow2(n)
    decreases n
  {
    if n > 0 {
      BitsValue(i / 2, n - 1);
      HalveDivMod(i, Pow2(n - 1));
      BitsCons(i, n);
      assert Bits(i, n)[1..] == Bits(i / 2, n - 1);
    }
  }

  /** The m low-order bits of i do not depend on how many bits are taken. */
  lemma BitsPrefix(i: int, m: nat, n: nat)
    requires m <= n
    ensures Bits(i, n)[..m] == Bits(i, m)
  {
    assert forall j | 0 <= j < m :: Bits(i, n)[j] == Bits(i, m)[j];
  }

  /** C11 6.3.1.3: converting i to uint64_t yields i modulo 2^64. */
  lemma FromIntValue(i: int)
    ensures Value(FromInt(i)) == i % Pow2(WordSize)
  {
    BitsValue(i, WordSize);
  }

  lemma ValueZeros(n: nat)
    ensures Value(Zeros(n)) == 0
  {
    ValueZeroIff(Zeros(n));
  }

  /** Zero has no bit set, however many bits are taken. */
  lemma {:induction false} BitsZero(n: nat)
    ensures Bits(0, n) == Zeros(n)
    decreases n
  {
    if n > 0 {
      BitsZero(n - 1);
      BitsCons(0, n);
    }
  }

  /** `(uint64_t) 0` is the word with no bit set. */
  lemma FromIntZero()
    ensures FromInt(0) == Zero
  {
    BitsZero(WordSize);
  }

  /** `(uint64_t) 1` has bit 0 set and no other. */
  lemma FromIntOne()
    ensures IsBit(FromInt(1), 0)
  {
    BitsZero(WordSize - 1);
    BitsCons(1, WordSize);
    assert FromInt(1) == [true] + Zeros(WordSize - 1);
  }

  /** A word denotes its low s bits plus 2^s times its high bits. */
  lemma ValueSplit(w: Word, s: nat)
    requires s <= WordSize
    ensures Value(w) == Value(w[..s]) + Pow2(s) * Value(w[s..])
  {
    assert w == w[..s] + w[s..];
    ValueConcat(w[..s], w[s..]);
  }

  /** The bits of w from position s up are all clear exactly when they
      denote zero. */
  lemma HighBitsClearIff(w: Word, s: nat)
    requires s <= WordSize
    ensures (forall j | s <= j < WordSize :: !w[j]) <==> Value(w[s..]) == 0
  {
    var hi := w[s..];
    ValueZeroIff(hi);
    assert forall j | s <= j < WordSize :: w[j] == hi[j - s];
  }

  /** The word whose only set bit is bit n, as a sequence of bits. */
  function BitAt(n: nat): (w: Word)
    requires n < WordSize
  {
    Zeros(n) + [true] + Zeros(WordSize - 1 - n)
  }

  lemma ValueLowestOnly(k: nat)
    ensures Value([true] + Zeros(k)) == 1
  {
    var s := [true] + Zeros(k);
    assert s[1..] == Zeros(k);
    ValueZeros(k);
  }

  lemma ZeroThenOne(a: seq<bool>, b: seq<bool>)
    requires Value(a) == 0 && Value(b) == 1
    ensures Value(a + b) == Pow2(|a|)
  {
    ValueConcat(a, b);
  }

  /** Bit n alone denotes 2^n. */
  lemma BitAtValue(n: nat)
    requires n < WordSize
    ensures Value(BitAt(n)) == Pow2(n)
  {
    var rest := [true] + Zeros(WordSize - 1 - n);
    assert BitAt(n) == Zeros(n) + rest;
    ValueZeros(n);
    ValueLowestOnly(WordSize - 1 - n);
    ZeroThenOne(Zeros(n), rest);
  }

  /** `1ULL << n` is the word whose only set bit is bit n. */
  lemma OneShifted(n: nat)
    requires n < WordSize
    ensures ShiftLeft(FromInt(1), n) == BitAt(n) && IsBit(BitAt(n), n)
  {
    FromIntOne();
    var w := ShiftLeft(FromInt(1), n);
    assert forall j | 0 <= j < WordSize :: w[j] == BitAt(n)[j];
  }

  /** Two single-bit words for different bits are different and share no
      set bit. */
  lemma DistinctBitsDisjoint(w: Word, m: nat, v: Word, n: nat)
    requires IsBit(w, m) && IsBit(v, n) && m != n && m < WordSize
    ensures BitAnd(w, v) == Zero && w != v
  {
    var both := BitAnd(w, v);
    assert forall j | 0 <= j < WordSize :: both[j] == Zero[j];
    assert w[m] != v[m];
  }

  // ---------------------------------------------------------------------
  // The shifts agree with the arithmetic definition of the C standard

  /** A left shift by n is n zero bits followed by the low 64 - n bits. */
  lemma ShiftLeftSplit(w: Word, n: int)
    requires 0 <= n < WordSize
    ensures ShiftLeft(w, n) == Zeros(n) + w[..WordSize - n]
  {
  }

  /** A right shift by n is the high 64 - n bits followed by n zero bits. */
  lemma ShiftRightSplit(w: Word, n: int)
    requires 0 <= n < WordSize
    ensures ShiftRight(w, n) == w[n..] + Zeros(n)
  {
  }

  /** If v == lo + pk * hi with lo < pk, then v * pn modulo pk * pn keeps
      only pn * lo. */
  lemma ScaledRemainder(v: int, lo: int, hi: int, pk: int, pn: int)
    requires 0 <= lo < pk && pn > 0 && v == lo + pk * hi
    ensures (v * pn) % (pk * pn) == pn * lo
  {
    assert v * pn == (pk * pn) * hi + pn * lo;
    assert pn * lo < pn * pk by {
      MulAtLeast(pn, pk - lo);
      assert pn * (pk - lo) == pn * pk - pn * lo;
    }
    DivModUnique(v * pn, pk * pn, hi, pn * lo);
  }

  /** C11 6.5.7p4: for an unsigned E1, E1 << E2 is E1 * 2^E2 reduced
      modulo 2^64. */
  lemma ShiftLeftValue(w: Word, n: int)
    requires 0 <= n < WordSize
    ensures Value(ShiftLeft(w, n)) == (Value(w) * Pow2(n)) % Pow2(WordSize)
  {
    var k := WordSize - n;
    ShiftLeftSplit(w, n);
    ValueConcat(Zeros(n), w[..k]);
    ValueZeros(n);
    assert w == w[..k] + w[k..];
    ValueConcat(w[..k], w[k..]);
    Pow2Add(k, n);
    ScaledRemainder(Value(w), Value(w[..k]), Value(w[k..]), Pow2(k), Pow2(n));
  }

  /** C11 6.5.7p5: for an unsigned E1, E1 >> E2 is the integral part of
      E1 / 2^E2. */
  lemma ShiftRightValue(w: Word, n: int)
    requires 0 <= n < WordSize
    ensures Value(ShiftRight(w, n)) == Value(w) / Pow2(n)
  {
    ShiftRightSplit(w, n);
    ValueConcat(w[n..], Zeros(n));
    ValueZeros(n);
    assert w == w[..n] + w[n..];
    ValueConcat(w[..n], w[n..]);
    DivModUnique(Value(w), Pow2(n), Value(w[n..]), Value(w[..n]));
  }
}
