/** Addresses as the 64-bit words the kernel masks and shifts, and the numbers they
    stand for. */
module AddressWord {
  import opened PageEntry
  import Ring

  function Halved(a: bv64): bv64 { a >> 1 }
  function Right3(a: bv64): bv64 { a >> 3 }
  function Right9(a: bv64): bv64 { a >> 9 }

  function Bit(a: bv64): nat { if a & 1 == 0 then 0 else 1 }

  /** The number the low `bits` bits of a word stand for. */
  function Number(a: bv64, bits: nat): nat {
    if bits == 0 then 0 else Number(Halved(a), bits - 1) * 2 + Bit(a)
  }

  function NumberOf(a: bv64): nat { Number(a, 64) }

  // ---------------------------------------------------------------- words that fit in fewer bits

  function Shifted(a: bv64, n: nat): bv64 {
    if n == 0 then a else Shifted(Halved(a), n - 1)
  }

  lemma {:induction false} ShiftedTwice(a: bv64, n: nat, k: nat)
    ensures Shifted(Shifted(a, n), k) == Shifted(a, n + k)
    decreases n
  {
    hide Halved;
    if n > 0 { ShiftedTwice(Halved(a), n - 1, k); }
  }

  lemma ThreeHalves(a: bv64)
    ensures Halved(Halved(Halved(a))) == Right3(a)
  {
  }

  lemma ThreeThrees(a: bv64)
    ensures Right3(Right3(Right3(a))) == Right9(a)
  {
  }

  lemma ShiftedBy3(a: bv64)
    ensures Shifted(a, 3) == Right3(a)
  {
    ThreeHalves(a);
    hide Halved, Right3;
    assert Shifted(a, 3) == Shifted(Halved(a), 2) == Shifted(Halved(Halved(a)), 1);
  }

  lemma ShiftedBy9(a: bv64)
    ensures Shifted(a, 9) == Right9(a)
  {
    hide Halved, Right3, Right9, Shifted;
    ShiftedBy3(a);
    ShiftedBy3(Right3(a));
    ShiftedBy3(Right3(Right3(a)));
    ShiftedTwice(a, 3, 3);
    ShiftedTwice(a, 6, 3);
    ThreeThrees(a);
  }

  lemma NothingLeft(a: bv64)
    ensures Right9(Right9(Right9(Right9(Right9(Right9(Right9(Halved(a)))))))) == 0
  {
  }

  lemma ShiftedBy63(b: bv64)
    ensures Shifted(b, 63) == Right9(Right9(Right9(Right9(Right9(Right9(Right9(b)))))))
  {
    hide Halved, Right9, Shifted;
    ShiftedBy9(b);
    var b2 := Right9(b);
    ShiftedBy9(b2);
    ShiftedTwice(b, 9, 9);
    var b3 := Right9(b2);
    ShiftedBy9(b3);
    ShiftedTwice(b, 18, 9);
    var b4 := Right9(b3);
    ShiftedBy9(b4);
    ShiftedTwice(b, 27, 9);
    var b5 := Right9(b4);
    ShiftedBy9(b5);
    ShiftedTwice(b, 36, 9);
    var b6 := Right9(b5);
    ShiftedBy9(b6);
    ShiftedTwice(b, 45, 9);
    var b7 := Right9(b6);
    ShiftedBy9(b7);
    ShiftedTwice(b, 54, 9);
  }

  lemma ShiftedOut(a: bv64)
    ensures Shifted(Halved(a), 63) == 0
  {
    NothingLeft(a);
    hide Halved, Right9, Shifted;
    ShiftedBy63(Halved(a));
  }

  lemma ZeroBit()
    ensures Bit(0) == 0 && Halved(0) == 0
  {
  }

  lemma {:induction false} FitsMeansNoMore(a: bv64, n: nat)
    requires Shifted(a, n) == 0
    ensures Number(a, n + 1) == Number(a, n)
    decreases n
  {
    ZeroBit();
    hide Halved, Bit;
    if n > 0 { FitsMeansNoMore(Halved(a), n - 1); }
  }

  // ---------------------------------------------------------------- shifting is dividing

  lemma Unfold(a: bv64, bits: nat)
    requires bits > 0
    ensures Number(a, bits) == Number(Halved(a), bits - 1) * 2 + Bit(a)
  {
  }

  lemma Half(a: bv64)
    ensures NumberOf(a) == NumberOf(Halved(a)) * 2 + Bit(a) && NumberOf(Halved(a)) == NumberOf(a) / 2
  {
    hide Number, Shifted, Halved;
    Unfold(a, 64);
    ShiftedOut(a);
    FitsMeansNoMore(Halved(a), 63);
  }

  lemma Eighth(a: bv64)
    ensures NumberOf(Right3(a)) == NumberOf(a) / 8
  {
    hide NumberOf, Bit, Halved, Right3;
    Half(a);
    Half(Halved(a));
    Half(Halved(Halved(a)));
    ThreeHalves(a);
  }

  lemma NinthPower(a: bv64)
    ensures NumberOf(Right9(a)) == NumberOf(a) / 512
  {
    hide NumberOf, Right3, Right9;
    Eighth(a);
    Eighth(Right3(a));
    Eighth(Right3(Right3(a)));
    ThreeThrees(a);
  }

  /** The shifts of the four levels are divisions. */
  lemma ShiftIsDivision(a: bv64)
    ensures var p := Right3(Right9(a));
            && NumberOf(p) == NumberOf(a) / 0x1000 && NumberOf(Right9(p)) == NumberOf(a) / 0x200000
            && NumberOf(Right9(Right9(p))) == NumberOf(a) / 0x40000000
            && NumberOf(Right9(Right9(Right9(p)))) == NumberOf(a) / 0x8000000000
  {
    hide NumberOf, Right3, Right9;
    NinthPower(a);
    Eighth(Right9(a));
    var p := Right3(Right9(a));
    NinthPower(p);
    NinthPower(Right9(p));
    NinthPower(Right9(Right9(p)));
  }

  // ---------------------------------------------------------------- masking is taking the remainder

  function And(a: bv64, m: bv64): bv64 { a & m }

  lemma MaskedHalf(a: bv64, m: bv64, n: bv64)
    requires n == (m << 1) | 1 && m & 0x8000000000000000 == 0
    ensures Halved(And(a, n)) == And(Halved(a), m) && Bit(And(a, n)) == Bit(a)
  {
  }

  /** `m` and `n` are masks of k and k + 1 low bits. */
  predicate Wider(m: bv64, n: bv64) {
    n == (m << 1) | 1 && m & 0x8000000000000000 == 0
  }

  lemma MaskStep(a: bv64, m: bv64, n: bv64)
    requires Wider(m, n)
    ensures NumberOf(And(a, n)) == NumberOf(And(Halved(a), m)) * 2 + Bit(a)
  {
    MaskedHalf(a, m, n);
    hide NumberOf, Bit, And, Halved, Wider;
    Half(And(a, n));
  }

  lemma {:induction false} ZeroNumber(bits: nat)
    ensures Number(0, bits) == 0
  {
    ZeroBit();
    hide Bit, Halved;
    if bits > 0 { ZeroNumber(bits - 1); }
  }

  lemma NoBits(a: bv64)
    ensures NumberOf(And(a, 0)) == 0
  {
    assert And(a, 0) == 0;
    hide And, Number;
    ZeroNumber(64);
  }

  lemma Masks()
    ensures Wider(0, 0x1) && Wider(0x1, 0x3) && Wider(0x3, 0x7) && Wider(0x7, 0xf) && Wider(0xf, 0x1f)
    ensures Wider(0x1f, 0x3f) && Wider(0x3f, 0x7f) && Wider(0x7f, 0xff) && Wider(0xff, 0x1ff)
  {
  }

  /** The low three bits more. */
  lemma Mask3(a: bv64, m0: bv64, m1: bv64, m2: bv64, m3: bv64, p: nat)
    requires Wider(m0, m1) && Wider(m1, m2) && Wider(m2, m3) && p > 0
    requires NumberOf(And(Right3(a), m0)) == NumberOf(Right3(a)) % p
    ensures NumberOf(And(a, m3)) == (NumberOf(a) / 8) % p * 8 + NumberOf(a) % 8
  {
    Eighth(a);
    ThreeHalves(a);
    hide NumberOf, And, Halved, Right3, Bit, Wider;
    MaskStep(a, m2, m3);
    MaskStep(Halved(a), m1, m2);
    MaskStep(Halved(Halved(a)), m0, m1);
    Half(a);
    Half(Halved(a));
    Half(Halved(Halved(a)));
  }

  lemma MaskRemainder3(a: bv64, m0: bv64, m1: bv64, m2: bv64, m3: bv64, p: nat)
    requires Wider(m0, m1) && Wider(m1, m2) && Wider(m2, m3) && p > 0
    requires NumberOf(And(Right3(a), m0)) == NumberOf(Right3(a)) % p
    ensures NumberOf(And(a, m3)) == NumberOf(a) % (8 * p)
  {
    hide NumberOf, And, Right3, Wider;
    Mask3(a, m0, m1, m2, m3, p);
    Ring.ModParts(NumberOf(a), 8, p);
  }

  /** The nine low bits are the remainder modulo 512. */
  lemma MaskIsRemainder(a: bv64)
    ensures NumberOf(And(a, 0x1ff)) == NumberOf(a) % 512
  {
    Masks();
    hide NumberOf, And, Right3, Wider;
    var b, c := Right3(a), Right3(Right3(a));
    NoBits(Right3(c));
    MaskRemainder3(c, 0, 0x1, 0x3, 0x7, 1);
    MaskRemainder3(b, 0x7, 0xf, 0x1f, 0x3f, 8);
    MaskRemainder3(a, 0x3f, 0x7f, 0xff, 0x1ff, 64);
  }

  // ---------------------------------------------------------------- the four indices

  function PgdIndex(a: bv64): bv64 { (a & PGD_MASK) >> 39 }
  function PudIndex(a: bv64): bv64 { (a & PUD_MASK) >> 30 }
  function PmdIndex(a: bv64): bv64 { (a & PMD_MASK) >> 21 }
  function PteIndex(a: bv64): bv64 { (a & PTE_MASK) >> 12 }

  lemma PteMasked(a: bv64)
    ensures PteIndex(a) == And(Right3(Right9(a)), 0x1ff)
  {
  }

  lemma PmdMasked(a: bv64)
    ensures PmdIndex(a) == And(Right9(Right3(Right9(a))), 0x1ff)
  {
  }

  lemma PudMasked(a: bv64)
    ensures PudIndex(a) == And(Right9(Right9(Right3(Right9(a)))), 0x1ff)
  {
  }

  lemma PgdMasked(a: bv64)
    ensures PgdIndex(a) == And(Right9(Right9(Right9(Right3(Right9(a))))), 0x1ff)
  {
  }

  /** The indices the kernel masks and shifts out of an address word name the path
      of the number the word stands for. */
  lemma IndicesArePath(a: bv64)
    ensures Path(NumberOf(a)) ==
              [NumberOf(PgdIndex(a)), NumberOf(PudIndex(a)), NumberOf(PmdIndex(a)), NumberOf(PteIndex(a))]
  {
    hide NumberOf, Right3, Right9, And, PgdIndex, PudIndex, PmdIndex, PteIndex;
    PgdMasked(a);
    PudMasked(a);
    PmdMasked(a);
    PteMasked(a);
    ShiftIsDivision(a);
    var p := Right3(Right9(a));
    MaskIsRemainder(p);
    MaskIsRemainder(Right9(p));
    MaskIsRemainder(Right9(Right9(p)));
    MaskIsRemainder(Right9(Right9(Right9(p))));
  }

  // ---------------------------------------------------------------- the word of a number

  function Doubled(w: bv64, odd: bool): bv64 { (w << 1) | (if odd then 1 else 0) }

  /** The word for a number, as far as it fits in `bits` bits. */
  function Word(n: nat, bits: nat): bv64 {
    if bits == 0 then 0 else Doubled(Word(n / 2, bits - 1), n % 2 == 1)
  }

  function WordOf(n: nat): bv64 { Word(n, 64) }

  function Power(bits: nat): (p: nat)
    ensures p > 0
  {
    if bits == 0 then 1 else 2 * Power(bits - 1)
  }

  lemma DoubledHalves(w: bv64, odd: bool)
    requires w & 0x8000000000000000 == 0
    ensures Halved(Doubled(w, odd)) == w && Bit(Doubled(w, odd)) == if odd then 1 else 0
  {
  }

  lemma TopOfShifted(w: bv64)
    ensures Right9(Right9(Right9(Right9(Right9(Right9(Right9(w))))))) == 0 ==> w & 0x8000000000000000 == 0
  {
  }

  lemma {:induction false} ShiftedZero(n: nat)
    ensures Shifted(0, n) == 0
  {
    ZeroBit();
    hide Halved;
    if n > 0 { ShiftedZero(n - 1); }
  }

  lemma {:induction false} FewerBits(w: bv64, n: nat, k: nat)
    requires Shifted(w, n) == 0
    ensures Shifted(w, n + k) == 0
  {
    hide Shifted;
    ShiftedTwice(w, n, k);
    ShiftedZero(k);
  }

  lemma HasNoTop(w: bv64, n: nat)
    requires n <= 63 && Shifted(w, n) == 0
    ensures w & 0x8000000000000000 == 0
  {
    TopOfShifted(w);
    hide Shifted, Right9;
    FewerBits(w, n, 63 - n);
    ShiftedBy63(w);
  }

  lemma DoubledFits(w: bv64, odd: bool, n: nat)
    requires n <= 63 && Shifted(w, n) == 0
    ensures Halved(Doubled(w, odd)) == w && Bit(Doubled(w, odd)) == (if odd then 1 else 0)
    ensures Shifted(Doubled(w, odd), n + 1) == 0
  {
    HasNoTop(w, n);
    DoubledHalves(w, odd);
    hide Doubled, Halved, Bit;
  }

  lemma {:induction false} NumberOfWordIs(n: nat, bits: nat)
    requires bits <= 64
    ensures Shifted(Word(n, bits), bits) == 0 && Number(Word(n, bits), bits) == n % Power(bits)
    decreases bits
  {
    hide Doubled, Halved, Bit, Shifted;
    if bits == 0 {
      ShiftedZero(0);
    } else {
      NumberOfWordIs(n / 2, bits - 1);
      DoubledFits(Word(n / 2, bits - 1), n % 2 == 1, bits - 1);
      Ring.ModParts(n, 2, Power(bits - 1));
    }
  }

  lemma {:induction false} PowerAdds(a: nat, b: nat)
    ensures Power(a + b) == Power(a) * Power(b)
  {
    if a > 0 { PowerAdds(a - 1, b); }
  }

  lemma PowerSquared(n: nat, p: nat)
    requires Power(n) == p
    ensures Power(n + n) == p * p
  {
    PowerAdds(n, n);
  }

  lemma Power64()
    ensures Power(64) == 0x1_0000_0000_0000_0000
  {
    assert Power(1) == 2;
    hide Power;
    PowerSquared(1, 2);
    PowerSquared(2, 4);
    PowerSquared(4, 16);
    PowerSquared(8, 256);
    PowerSquared(16, 0x1_0000);
    PowerSquared(32, 0x1_0000_0000);
  }

  /** A digit below the wrap-around is not affected by it. */
  lemma DigitWraps(q: nat, x: nat, c: nat, e: nat)
    requires c > 0
    ensures ((q * (e * 512 * c) + x) / c) % 512 == (x / c) % 512
  {
    var y := x / c;
    assert x == y * c + x % c;
    assert q * (e * 512 * c) + x == (q * e * 512 + y) * c + x % c by {
      assert q * (e * 512 * c) == (q * e * 512) * c;
      assert (q * e * 512 + y) * c == (q * e * 512) * c + y * c;
    }
    Ring.DivOf(q * (e * 512 * c) + x, q * e * 512 + y, x % c, c);
    assert y == (y / 512) * 512 + y % 512;
    Ring.ModOf(q * e * 512 + y, q * e + y / 512, y % 512, 512);
  }

  lemma PathWraps(n: nat)
    ensures Path(n % 0x1_0000_0000_0000_0000) == Path(n)
  {
    var q, x := n / 0x1_0000_0000_0000_0000, n % 0x1_0000_0000_0000_0000;
    DigitWraps(q, x, 0x8000000000, 0x10000);
    DigitWraps(q, x, 0x40000000, 0x2000000);
    DigitWraps(q, x, 0x200000, 0x400000000);
    DigitWraps(q, x, 0x1000, 0x80000000000);
  }

  /** The indices masked and shifted out of the word that holds an address are the
      address's path. */
  lemma WordIndices(n: nat)
    ensures var a := WordOf(n);
            Path(n) == [NumberOf(PgdIndex(a)), NumberOf(PudIndex(a)), NumberOf(PmdIndex(a)), NumberOf(PteIndex(a))]
  {
    hide Number, Word, Path, Power, PgdIndex, PudIndex, PmdIndex, PteIndex;
    NumberOfWordIs(n, 64);
    Power64();
    PathWraps(n);
    IndicesArePath(WordOf(n));
  }
}
