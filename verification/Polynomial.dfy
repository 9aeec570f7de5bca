/** Clause 3.2.9 of IEEE 802.3 as a definition: a frame's CRC is the complement of the
    remainder of a division of polynomials over GF(2). The register loop of Crc32 is shown
    to produce exactly that remainder, for messages of any length. */
module Polynomial {
  import opened Crc32

  /** A polynomial by its coefficients, highest power first. */
  type Poly = seq<bool>

  predicate InGenerator(e: int) {
    e == 32 || e == 26 || e == 23 || e == 22 || e == 16 || e == 12 || e == 11 || e == 10 ||
    e == 8 || e == 7 || e == 5 || e == 4 || e == 2 || e == 1 || e == 0
  }

  /** The generator x^32 + x^26 + ... + x + 1. */
  function Generator(): (g: Poly)
    ensures |g| == 33 && g[0]
  {
    seq(33, i => InGenerator(32 - i))
  }

  function Zeros(n: nat): (p: Poly) ensures |p| == n { seq(n, i => false) }

  function Ones(n: nat): (p: Poly) ensures |p| == n { seq(n, i => true) }

  /** Addition, which is also subtraction. */
  function Add(a: Poly, b: Poly): (p: Poly)
    requires |a| == |b|
    ensures |p| == |a| && forall i | 0 <= i < |a| :: p[i] == (a[i] != b[i])
  {
    seq(|a|, i requires 0 <= i < |a| => a[i] != b[i])
  }

  /** One coefficient times the generator times x^n. */
  function Term(b: bool, n: nat): (p: Poly)
    ensures |p| == n + 33
  {
    if b then Generator() + Zeros(n) else Zeros(n + 33)
  }

  /** The product of q and the generator. */
  function Times(q: Poly): (p: Poly)
    ensures |p| == |q| + 32
  {
    if q == [] then Zeros(32) else Add(Term(q[0], |q| - 1), [false] + Times(q[1..]))
  }

  /** p = q * generator + r, with r below degree 32. */
  predicate Divides(p: Poly, q: Poly, r: Poly) {
    |r| == 32 && |p| == |q| + 32 && p == Add(Times(q), Zeros(|q|) + r)
  }

  ghost predicate IsRemainder(p: Poly, r: Poly) { exists q :: Divides(p, q, r) }

  /** The message times x^32, with its first 32 coefficients complemented. */
  function Dividend(m: Poly): Poly { Add(m + Zeros(32), Ones(32) + Zeros(|m|)) }

  function Complement(r: Poly): Poly { Add(r, Ones(|r|)) }

  // ---------------------------------------------------------------- register as polynomial

  function Low(c: bv32, n: nat): (p: Poly)
    ensures |p| == n
    decreases n
  {
    if n == 0 then [] else [Odd(c)] + Low(Half(c), n - 1)
  }

  /** The register as a polynomial: bit 0 holds the coefficient of x^31. */
  function RegBits(c: bv32): Poly { Low(c, 32) }

  lemma HalfWithin(c: bv32, m: bv32) requires Within(c, Cons(true, m)) && TopClear(m) ensures Within(Half(c), m) {
    RawHalfWithin(c, m);
  }
  lemma RawHalfWithin(c: bv32, m: bv32)
    requires c & !((m << 1) | 1) == 0 && m & 0x8000_0000 == 0
    ensures (c >> 1) & !m == 0
  {
  }
  lemma WithinZero(c: bv32) requires Within(c, 0) ensures !Odd(c) {}
  lemma WithinAll(c: bv32) ensures Within(c, ALL_ONES) {}

  lemma {:induction false} LowXor(a: bv32, b: bv32, n: nat)
    ensures Low(Xor(a, b), n) == Add(Low(a, n), Low(b, n))
    decreases n
  {
    if n > 0 {
      OddXor(a, b);
      HalfXor(a, b);
      LowXor(Half(a), Half(b), n - 1);
      LowAdd(a, b, Xor(a, b), n);
    }
  }

  lemma LowAdd(a: bv32, b: bv32, c: bv32, n: nat)
    requires n > 0 && Odd(c) == (Odd(a) != Odd(b))
    requires Low(Half(c), n - 1) == Add(Low(Half(a), n - 1), Low(Half(b), n - 1))
    ensures Low(c, n) == Add(Low(a, n), Low(b, n))
  {
    AddCons(Odd(a), Odd(b), Low(Half(a), n - 1), Low(Half(b), n - 1));
  }

  lemma AddCons(p: bool, q: bool, a: Poly, b: Poly)
    requires |a| == |b|
    ensures Add([p] + a, [q] + b) == [p != q] + Add(a, b)
  {
  }

  lemma {:induction false} LowEnds(c: bv32, n: nat)
    requires n <= 32 && Within(c, Mask(n))
    ensures Low(c, n + 1)[n] == false
    decreases n
  {
    if n == 0 {
      WithinZero(c);
    } else {
      MaskTopClear(n - 1);
      HalfWithin(c, Mask(n - 1));
      LowEnds(Half(c), n - 1);
    }
  }

  lemma MaskTopClear(n: nat)
    requires n <= 31
    ensures TopClear(Mask(n))
  {
    MaskGrows(n, 31);
    Mask31();
    WithinTop(Mask(n));
  }

  lemma Mask32()
    ensures Mask(32) == ALL_ONES
  {
    Mask31();
  }

  /** The register shifted: one power up, with a zero coefficient entering at x^0. */
  lemma HalfBits(c: bv32)
    ensures RegBits(Half(c)) == RegBits(c)[1..] + [false]
  {
    WithinAll(c);
    Mask32();
    LowEnds(c, 32);
    LowPrefix(c, 32);
    assert RegBits(Half(c)) == Low(c, 33)[1..];
  }

  lemma {:induction false} LowPrefix(c: bv32, n: nat)
    ensures Low(c, n + 1)[..n] == Low(c, n)
    decreases n
  {
    if n > 0 { LowPrefix(Half(c), n - 1); }
  }

  /** The reflected constant in the source is the generator without its leading term. */
  lemma PolyBits()
    ensures RegBits(POLY) == Generator()[1..]
  {
    PolyHighBits();
    LowFour(0x000EDB88, 0x0000EDB8, 20, [false, false, false, true]);
    LowFour(0x00EDB883, 0x000EDB88, 24, [true, true, false, false]);
    LowFour(0x0EDB8832, 0x00EDB883, 28, [false, true, false, false]);
    LowFour(0xEDB88320, 0x0EDB8832, 32, [false, false, false, false]);
  }

  lemma PolyHighBits()
    ensures Low(0x0000EDB8, 16) == Generator()[17..]
  {
    LowFour(0x0000000E, 0x00000000, 4, [false, true, true, true]);
    LowFour(0x000000ED, 0x0000000E, 8, [true, false, true, true]);
    LowFour(0x00000EDB, 0x000000ED, 12, [true, true, false, true]);
    LowFour(0x0000EDB8, 0x00000EDB, 16, [false, false, false, true]);
  }

  /** Four bits of the register at a time, checked against the generator's coefficients. */
  lemma LowFour(c: bv32, d: bv32, n: nat, bits: Poly)
    requires 4 <= n <= 32 && d == Half(Half(Half(Half(c))))
    requires bits == [Odd(c), Odd(Half(c)), Odd(Half(Half(c))), Odd(Half(Half(Half(c))))]
    requires forall i | 0 <= i < 4 :: bits[i] == InGenerator(n - 1 - i)
    requires Low(d, n - 4) == Generator()[37 - n..]
    ensures Low(c, n) == Generator()[33 - n..]
  {
    LowTwo(c, n);
    LowTwo(Half(Half(c)), n - 2);
    assert Low(c, n) == bits + Low(d, n - 4);
    GeneratorFour(n, bits);
  }

  lemma GeneratorFour(n: nat, bits: Poly)
    requires 4 <= n <= 32 && |bits| == 4
    requires forall i | 0 <= i < 4 :: bits[i] == InGenerator(n - 1 - i)
    ensures Generator()[33 - n..] == bits + Generator()[37 - n..]
  {
    var g := Generator();
    var tail, split := g[33 - n..], bits + g[37 - n..];
    forall i | 0 <= i < n ensures tail[i] == split[i] {
      if i < 4 { assert g[33 - n + i] == InGenerator(n - 1 - i); }
    }
  }

  lemma LowTwo(c: bv32, n: nat)
    requires n >= 2
    ensures Low(c, n) == [Odd(c), Odd(Half(c))] + Low(Half(Half(c)), n - 2)
  {
    assert Low(Half(c), n - 1) == [Odd(Half(c))] + Low(Half(Half(c)), n - 2);
  }

  lemma {:induction false} MaskBits(n: nat)
    requires n <= 32
    ensures Low(Mask(n), n) == Ones(n)
    decreases n
  {
    if n > 0 {
      MaskBits(n - 1);
      MaskTopClear(n - 1);
      OddCons(true, Mask(n - 1));
      HalfCons(true, Mask(n - 1));
    }
  }

  lemma {:induction false} ZeroBits(n: nat)
    ensures Low(0, n) == Zeros(n)
    decreases n
  {
    if n > 0 { ZeroBits(n - 1); }
  }

  // ---------------------------------------------------------------- the division

  /** What the register and the unread message bits stand for together. */
  function Pending(c: bv32, m: Poly): (p: Poly)
    ensures |p| == |m| + 32
  {
    Add(RegBits(c) + Zeros(|m|), m + Zeros(32))
  }

  lemma NextBits(c: bv32, b: bool)
    ensures RegBits(Next(c, b)) ==
            Add(RegBits(c)[1..] + [false], if Odd(c) != b then Generator()[1..] else Zeros(32))
  {
    HalfBit(c, b);
    LowXor(Half(c), if Odd(c) != b then POLY else 0, 32);
    HalfBits(c);
    PolyBits();
    ZeroBits(32);
  }

  /** One register step is one row of the long division. */
  lemma DivisionRow(c: bv32, m: Poly)
    requires m != []
    ensures Pending(c, m) == Add(Term(Odd(c) != m[0], |m| - 1), [false] + Pending(Next(c, m[0]), m[1..]))
  {
    var x, d := RegBits(c), RegBits(Next(c, m[0]));
    NextBits(c, m[0]);
    RegBitsFirst(c);
    RowSum(x, m, d);
    assert Pending(c, m) == Add(x + Zeros(|m|), m + Zeros(32));
    assert Pending(Next(c, m[0]), m[1..]) == Add(d + Zeros(|m| - 1), m[1..] + Zeros(32));
  }

  lemma RegBitsFirst(c: bv32)
    ensures RegBits(c)[0] == Odd(c)
  {
  }

  lemma RowSum(c: Poly, m: Poly, d: Poly)
    requires |c| == 32 && m != []
    requires d == Add(c[1..] + [false], if c[0] != m[0] then Generator()[1..] else Zeros(32))
    ensures Add(c + Zeros(|m|), m + Zeros(32)) ==
            Add(Term(c[0] != m[0], |m| - 1), [false] + Add(d + Zeros(|m| - 1), m[1..] + Zeros(32)))
  {
    var n := |m| - 1;
    var cs, ms, t, ds := c + Zeros(n + 1), m + Zeros(32), Term(c[0] != m[0], n), d + Zeros(n);
    var left, right := Add(cs, ms), Add(t, [false] + Add(ds, m[1..] + Zeros(32)));
    assert m[1..] + Zeros(32) == ms[1..];
    forall i | 0 <= i < |left| ensures left[i] == right[i] {
      if 1 <= i < 32 { assert ds[i - 1] == d[i - 1] && cs[i] == c[i]; }
    }
  }

  lemma {:induction false} FeedDivides(c: bv32, m: Poly) returns (q: Poly)
    ensures Divides(Pending(c, m), q, RegBits(Feed(c, m)))
    decreases m
  {
    if m == [] {
      q := [];
      assert Pending(c, m) == Add(Times(q), Zeros(0) + RegBits(c));
    } else {
      var q' := FeedDivides(Next(c, m[0]), m[1..]);
      DivisionRow(c, m);
      q := AddRow(Pending(c, m), Odd(c) != m[0], Pending(Next(c, m[0]), m[1..]), q', RegBits(Feed(c, m)));
    }
  }

  lemma AddRow(p: Poly, b: bool, rest: Poly, q': Poly, r: Poly) returns (q: Poly)
    requires Divides(rest, q', r)
    requires p == Add(Term(b, |q'|), [false] + rest)
    ensures Divides(p, q, r)
  {
    q := [b] + q';
    assert q[1..] == q';
    ZerosCons(|q'|, r);
    RowAdded(Term(b, |q'|), Times(q'), Zeros(|q'|) + r);
  }

  lemma RowAdded(t: Poly, x: Poly, y: Poly)
    requires |t| == |x| + 1 == |y| + 1
    ensures Add(t, [false] + Add(x, y)) == Add(Add(t, [false] + x), [false] + y)
  {
  }

  /** Remainders are unique, so IsRemainder determines the CRC. */
  lemma {:induction false} DivisionUnique(p: Poly, q: Poly, r: Poly, q': Poly, r': Poly)
    requires Divides(p, q, r) && Divides(p, q', r')
    ensures q == q' && r == r'
    decreases |q|
  {
    if q == [] {
      assert forall i | 0 <= i < 32 :: p[i] == r[i] && p[i] == r'[i];
    } else {
      LeadingCoefficient(p, q, r);
      LeadingCoefficient(p, q', r');
      var rest := DropRow(p, q, r);
      var rest' := DropRow(p, q', r');
      assert rest == rest';
      DivisionUnique(rest, q[1..], r, q'[1..], r');
      assert q == [q[0]] + q[1..] && q' == [q'[0]] + q'[1..];
    }
  }

  lemma LeadingCoefficient(p: Poly, q: Poly, r: Poly)
    requires Divides(p, q, r) && q != []
    ensures p[0] == q[0]
  {
    assert Times(q)[0] == Term(q[0], |q| - 1)[0];
  }

  lemma DropRow(p: Poly, q: Poly, r: Poly) returns (rest: Poly)
    requires Divides(p, q, r) && q != []
    ensures Divides(rest, q[1..], r)
    ensures rest == Add(p, Term(q[0], |q| - 1))[1..]
  {
    var t, x, y := Term(q[0], |q| - 1), Times(q[1..]), Zeros(|q| - 1) + r;
    rest := Add(p, t)[1..];
    ZerosCons(|q| - 1, r);
    assert Times(q) == Add(t, [false] + x);
    RowRemoved(p, t, x, y);
    assert |q[1..]| == |q| - 1 && rest == Add(x, y);
  }

  lemma ZerosCons(n: nat, r: Poly)
    ensures Zeros(n + 1) + r == [false] + (Zeros(n) + r)
  {
  }

  lemma RowRemoved(p: Poly, t: Poly, x: Poly, y: Poly)
    requires |p| == |t| == |x| + 1 == |y| + 1
    requires p == Add(Add(t, [false] + x), [false] + y)
    ensures Add(p, t)[1..] == Add(x, y)
  {
    forall i | 0 <= i < |x| ensures Add(p, t)[1..][i] == Add(x, y)[i] {
      assert Add(t, [false] + x)[i + 1] == (t[i + 1] != x[i]);
      assert p[i + 1] == ((t[i + 1] != x[i]) != y[i]);
    }
  }

  /** The CRC of the source is the standard's: the complement of the one remainder of the
      complemented message times x^32. */
  lemma CrcIsRemainder(data: seq<bv8>, r: Poly)
    ensures IsRemainder(Dividend(MessageBits(data)), r) <==> r == Complement(RegBits(Crc(data)))
  {
    var m := MessageBits(data);
    var f := Feed(ALL_ONES, m);
    PresetIsDividend(m);
    ComplementedBits(f);
    var q := FeedDivides(ALL_ONES, m);
    RemainderIff(Dividend(m), q, RegBits(f), r);
  }

  /** The preset to ones complements the first 32 coefficients. */
  lemma PresetIsDividend(m: Poly)
    ensures Pending(ALL_ONES, m) == Dividend(m)
  {
    MaskBits(32);
    Mask32();
  }

  lemma ComplementedBits(f: bv32)
    ensures Complement(RegBits(Xor(f, ALL_ONES))) == RegBits(f)
  {
    MaskBits(32);
    Mask32();
    LowXor(f, ALL_ONES, 32);
  }

  lemma RemainderIff(p: Poly, q: Poly, r: Poly, r': Poly)
    requires Divides(p, q, r)
    ensures IsRemainder(p, r') <==> r' == r
  {
    if IsRemainder(p, r') {
      var q' :| Divides(p, q', r');
      DivisionUnique(p, q, r, q', r');
    }
  }
}
