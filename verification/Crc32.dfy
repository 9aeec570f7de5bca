/** The table-less CRC-32 of the settings store (firmware/src/services/settings.cpp:19-33):
    the byte-wise loop, its bit-serial form, the polynomial division it stands for,
    and the error bursts it detects. */
module Crc32 {

  const POLY: bv32 := 0xEDB88320
  const ALL_ONES: bv32 := 0xFFFF_FFFF

  // ---------------------------------------------------------------- words
  // Every word operation has a name, so that proofs over messages never open the bits.

  function Bit(b: bool): bv32 { if b then 1 else 0 }

  function Xor(a: bv32, b: bv32): bv32 { a ^ b }

  predicate Odd(c: bv32) { c & 1 == 1 }

  function Half(c: bv32): bv32 { c >> 1 }

  /** The word w moved up by one position with b entering at the bottom. */
  function Cons(b: bool, w: bv32): bv32 { if b then (w << 1) | 1 else w << 1 }

  /** One step of the shift register: multiplication by x modulo the generator. */
  function BitStep(c: bv32): bv32 { Xor(Half(c), if Odd(c) then POLY else 0) }

  /** The inverse of BitStep; the generator's constant term makes the top bit tell which way it went. */
  function BitUnstep(d: bv32): bv32 { if TopClear(d) then Cons(false, d) else Cons(true, Xor(d, POLY)) }

  /** The register after one message bit. */
  function Next(c: bv32, b: bool): bv32 { BitStep(Xor(c, Bit(b))) }

  /** All bits of w lie inside the mask m. */
  predicate Within(w: bv32, m: bv32) { w & !m == 0 }

  predicate TopClear(w: bv32) { w & 0x8000_0000 == 0 }

  lemma XorAssoc(x: bv32, y: bv32, z: bv32) ensures Xor(Xor(x, y), z) == Xor(x, Xor(y, z)) {}
  lemma XorCommutes(x: bv32, y: bv32) ensures Xor(x, y) == Xor(y, x) {}
  lemma XorZero(a: bv32) ensures Xor(a, 0) == a {}
  lemma XorSelf(a: bv32) ensures Xor(a, a) == 0 {}
  lemma OddXor(a: bv32, b: bv32) ensures Odd(Xor(a, b)) == (Odd(a) != Odd(b)) {}
  lemma HalfXor(a: bv32, b: bv32) ensures Half(Xor(a, b)) == Xor(Half(a), Half(b)) {}
  lemma OddCons(b: bool, w: bv32) ensures Odd(Cons(b, w)) == b {}
  lemma HalfCons(b: bool, w: bv32) requires TopClear(w) ensures Half(Cons(b, w)) == w {
    if b { RawDropOne(w); } else { RawDropZero(w); }
  }
  lemma ConsWithin(b: bool, w: bv32, m: bv32) requires Within(w, m) ensures Within(Cons(b, w), Cons(true, m)) {
    if b { ConsOneWithin(w, m); } else { ConsZeroWithin(w, m); }
  }
  lemma ConsOneWithin(w: bv32, m: bv32) requires Within(w, m) ensures Within(Cons(true, w), Cons(true, m)) {}
  lemma ConsZeroWithin(w: bv32, m: bv32) requires Within(w, m) ensures Within(Cons(false, w), Cons(true, m)) {}
  lemma WithinTrans(w: bv32, m: bv32, n: bv32) requires Within(w, m) && Within(m, n) ensures Within(w, n) {}
  lemma WithinTop(w: bv32) requires Within(w, 0x7FFF_FFFF) ensures TopClear(w) {}

  // The same over bare operators, where the solver is quick.
  lemma RawDropOne(w: bv32) requires w & 0x8000_0000 == 0 ensures ((w << 1) | 1) >> 1 == w {}
  lemma RawDropZero(w: bv32) requires w & 0x8000_0000 == 0 ensures (w << 1) >> 1 == w {}

  // What follows from these facts alone.
  lemma XorSwap(x: bv32, y: bv32, z: bv32) ensures Xor(Xor(x, y), z) == Xor(Xor(x, z), y) {
    XorAssoc(x, y, z);
    XorAssoc(x, z, y);
    XorCommutes(y, z);
  }
  lemma XorCancels(a: bv32, c: bv32) ensures Xor(Xor(a, c), c) == a {
    XorAssoc(a, c, c);
    XorSelf(c);
    XorZero(a);
  }
  lemma XorRightInjective(a: bv32, b: bv32, c: bv32) requires Xor(a, c) == Xor(b, c) ensures a == b {
    XorCancels(a, c);
    XorCancels(b, c);
  }
  lemma XorLeftInjective(a: bv32, b: bv32, c: bv32) requires Xor(c, a) == Xor(c, b) ensures a == b {
    XorCommutes(a, c);
    XorCommutes(b, c);
    XorRightInjective(a, b, c);
  }
  lemma HalfBit(c: bv32, b: bool) ensures Half(Xor(c, Bit(b))) == Half(c) && Odd(Xor(c, Bit(b))) == (Odd(c) != b) {
    HalfXor(c, Bit(b));
    OddXor(c, Bit(b));
    BitHalf(b);
    XorZero(Half(c));
  }
  lemma BitHalf(b: bool) ensures Half(Bit(b)) == 0 && Odd(Bit(b)) == b {}

  lemma ConsInjective(p: bool, x: bv32, q: bool, y: bv32)
    requires TopClear(x) && TopClear(y) && Cons(p, x) == Cons(q, y)
    ensures p == q && x == y
  {
    OddCons(p, x);
    OddCons(q, y);
    HalfCons(p, x);
    HalfCons(q, y);
  }

  /** Each bit step is a bijection of the 32-bit register. */
  lemma BitStepBijective(c: bv32)
    ensures BitUnstep(BitStep(c)) == c && BitStep(BitUnstep(c)) == c
  {
    UnstepAfterStep(c);
    StepAfterUnstep(c);
  }

  lemma UnstepAfterStep(c: bv32) ensures BitUnstep(BitStep(c)) == c {
    HalfTop(c);
    if Odd(c) {
      XorCancels(Half(c), POLY);
      RejoinOne(c);
    } else {
      XorZero(Half(c));
      RejoinZero(c);
    }
  }

  lemma HalfTop(c: bv32) ensures TopClear(Half(c)) && !TopClear(Xor(Half(c), POLY)) {}
  lemma RejoinOne(c: bv32) requires Odd(c) ensures Cons(true, Half(c)) == c {}
  lemma RejoinZero(c: bv32) requires !Odd(c) ensures Cons(false, Half(c)) == c {}

  lemma StepAfterUnstep(d: bv32) ensures BitStep(BitUnstep(d)) == d {
    if TopClear(d) {
      OddCons(false, d);
      HalfCons(false, d);
      XorZero(d);
    } else {
      FlipTop(d);
      OddCons(true, Xor(d, POLY));
      HalfCons(true, Xor(d, POLY));
      XorCancels(d, POLY);
    }
  }

  lemma FlipTop(d: bv32) requires !TopClear(d) ensures TopClear(Xor(d, POLY)) {}

  lemma NextInjective(c: bv32, d: bv32, b: bool)
    requires Next(c, b) == Next(d, b)
    ensures c == d
  {
    UnstepAfterStep(Xor(c, Bit(b)));
    UnstepAfterStep(Xor(d, Bit(b)));
    XorRightInjective(c, d, Bit(b));
  }

  /** A word already xored in rides along with the shift. */
  lemma NextAbsorbs(c: bv32, b: bool, w: bv32)
    requires TopClear(w)
    ensures BitStep(Xor(c, Cons(b, w))) == Xor(Next(c, b), w)
  {
    HalfXor(c, Cons(b, w));
    OddXor(c, Cons(b, w));
    OddCons(b, w);
    HalfCons(b, w);
    HalfBit(c, b);
    XorSwap(Half(c), w, if Odd(c) != b then POLY else 0);
  }

  // ---------------------------------------------------------------- bit-serial form

  function Steps(c: bv32, n: nat): bv32
    decreases n
  {
    if n == 0 then c else Steps(BitStep(c), n - 1)
  }

  /** The register after shifting in a message bit by bit, first bit first. */
  function Feed(c: bv32, bits: seq<bool>): bv32
    decreases bits
  {
    if bits == [] then c else Feed(Next(c, bits[0]), bits[1..])
  }

  /** The bits of one byte in transmission order, least significant first. */
  function ByteBits(b: bv8): (bits: seq<bool>)
    ensures |bits| == 8
  {
    [b & 0x01 != 0, b & 0x02 != 0, b & 0x04 != 0, b & 0x08 != 0,
     b & 0x10 != 0, b & 0x20 != 0, b & 0x40 != 0, b & 0x80 != 0]
  }

  function MessageBits(data: seq<bv8>): (bits: seq<bool>)
    ensures |bits| == 8 * |data|
  {
    if data == [] then [] else ByteBits(data[0]) + MessageBits(data[1..])
  }

  /** The specification: preset to ones, shift every message bit in, complement. */
  function Crc(data: seq<bv8>): bv32 { Xor(Feed(ALL_ONES, MessageBits(data)), ALL_ONES) }

  // ---------------------------------------------------------------- the loop in the source

  /** The byte-wise loop with its masked exclusive-or computes the bit-serial CRC. */
  method Compute(data: seq<bv8>) returns (r: bv32)
    ensures r == Crc(data)
  {
    var c := ALL_ONES;
    for i := 0 to |data|
      invariant Feed(c, MessageBits(data[i..])) == Feed(ALL_ONES, MessageBits(data))
    {
      ghost var c0 := c;
      c := FoldByte(c, data[i]);
      assert data[i..][0] == data[i] && data[i..][1..] == data[i + 1..];
      FeedByte(c0, data[i]);
      FeedConcat(c0, ByteBits(data[i]), MessageBits(data[i + 1..]));
    }
    assert data[|data|..] == [];
    r := Xor(c, ALL_ONES);
  }

  /** The body of the byte loop. */
  method FoldByte(c0: bv32, b: bv8) returns (c: bv32)
    ensures c == Steps(Xor(c0, b as bv32), 8)
  {
    c := c0 ^ (b as bv32);
    for k := 0 to 8
      invariant Steps(c, 8 - k) == Steps(Xor(c0, b as bv32), 8)
    {
      var m: bv32 := 0 - (c & 1);
      MaskedPoly(c);
      c := (c >> 1) ^ (POLY & m);
    }
  }

  lemma MaskedPoly(c: bv32) ensures (c >> 1) ^ (POLY & (0 - (c & 1))) == BitStep(c) {
    RawLowCases(c);
    if Odd(c) { RawMaskOne(c & 1); } else { RawMaskZero(c & 1); }
  }

  lemma RawLowCases(c: bv32) ensures c & 1 == 0 || c & 1 == 1 {}
  lemma RawMaskOne(b: bv32) requires b == 1 ensures POLY & (0 - b) == POLY {}
  lemma RawMaskZero(b: bv32) requires b == 0 ensures POLY & (0 - b) == 0 {}

  // ---------------------------------------------------------------- injectivity and absorption

  lemma {:induction false} StepsInjective(c: bv32, d: bv32, n: nat)
    requires Steps(c, n) == Steps(d, n)
    ensures c == d
    decreases n
  {
    if n > 0 {
      StepsInjective(BitStep(c), BitStep(d), n - 1);
      UnstepAfterStep(c);
      UnstepAfterStep(d);
    }
  }

  /** Whatever the message, feeding it is an injection on the register. */
  lemma {:induction false} FeedInjective(c: bv32, d: bv32, bits: seq<bool>)
    requires Feed(c, bits) == Feed(d, bits)
    ensures c == d
    decreases bits
  {
    if bits != [] {
      FeedInjective(Next(c, bits[0]), Next(d, bits[0]), bits[1..]);
      NextInjective(c, d, bits[0]);
    }
  }

  lemma {:induction false} FeedConcat(c: bv32, a: seq<bool>, b: seq<bool>)
    ensures Feed(c, a + b) == Feed(Feed(c, a), b)
    decreases a
  {
    if a == [] {
      assert a + b == b;
    } else {
      assert (a + b)[1..] == a[1..] + b;
      FeedConcat(Next(c, a[0]), a[1..], b);
    }
  }

  /** At most 32 bits as one word, first bit lowest. */
  function Pack(bits: seq<bool>): bv32 { if bits == [] then 0 else Cons(bits[0], Pack(bits[1..])) }

  /** The word whose low n bits are set. */
  function Mask(n: nat): bv32 { if n == 0 then 0 else Cons(true, Mask(n - 1)) }

  lemma Mask31()
    ensures Mask(31) == 0x7FFF_FFFF
  {
    assert Mask(4) == 0xF;
    assert Mask(8) == 0xFF;
    assert Mask(12) == 0xFFF;
    assert Mask(16) == 0xFFFF;
    assert Mask(20) == 0xF_FFFF;
    assert Mask(24) == 0xFF_FFFF;
    assert Mask(28) == 0xFFF_FFFF;
  }

  lemma {:induction false} MaskGrows(n: nat, m: nat)
    requires n <= m
    ensures Within(Mask(n), Mask(m))
  {
    if n > 0 {
      MaskGrows(n - 1, m - 1);
      ConsWithin(true, Mask(n - 1), Mask(m - 1));
    }
  }

  lemma {:induction false} PackWithin(bits: seq<bool>)
    ensures Within(Pack(bits), Mask(|bits|))
  {
    if bits != [] {
      PackWithin(bits[1..]);
      PrefixWithin(bits[0], Pack(bits[1..]), Mask(|bits| - 1), Pack(bits), Mask(|bits|));
    }
  }

  lemma PrefixWithin(b: bool, w: bv32, m: bv32, p: bv32, n: bv32)
    requires Within(w, m) && p == Cons(b, w) && n == Cons(true, m)
    ensures Within(p, n)
  {
    ConsWithin(b, w, m);
  }

  lemma PackTopClear(bits: seq<bool>)
    requires |bits| <= 31
    ensures TopClear(Pack(bits))
  {
    PackWithin(bits);
    MaskGrows(|bits|, 31);
    Mask31();
    WithinTrans(Pack(bits), Mask(|bits|), Mask(31));
    WithinTop(Pack(bits));
  }

  lemma {:induction false} PackInjective(a: seq<bool>, b: seq<bool>)
    requires |a| == |b| <= 32 && Pack(a) == Pack(b)
    ensures a == b
  {
    if a != [] {
      PackTopClear(a[1..]);
      PackTopClear(b[1..]);
      ConsInjective(a[0], Pack(a[1..]), b[0], Pack(b[1..]));
      PackInjective(a[1..], b[1..]);
      assert a == [a[0]] + a[1..] && b == [b[0]] + b[1..];
    }
  }

  /** Up to 32 message bits are absorbed by one exclusive-or followed by plain steps. */
  lemma {:induction false} FeedIsSteps(c: bv32, bits: seq<bool>)
    requires |bits| <= 32
    ensures Feed(c, bits) == Steps(Xor(c, Pack(bits)), |bits|)
    decreases bits
  {
    if bits == [] {
      XorZero(c);
    } else {
      PackTopClear(bits[1..]);
      FeedIsSteps(Next(c, bits[0]), bits[1..]);
      NextAbsorbs(c, bits[0], Pack(bits[1..]));
    }
  }

  lemma PackByte(b: bv8)
    ensures Pack(ByteBits(b)) == b as bv32
  {
    var s := ByteBits(b);
    PackFour(s, 4);
    PackFour(s, 0);
    assert s[8..] == [] && s[0..] == s;
    JoinSplit(b);
  }

  lemma PackFour(s: seq<bool>, i: nat)
    requires i + 4 <= |s|
    ensures Pack(s[i..]) == Cons(s[i], Cons(s[i + 1], Cons(s[i + 2], Cons(s[i + 3], Pack(s[i + 4..])))))
  {
    PackTail(s, i + 3);
    PackTail(s, i + 2);
    PackTail(s, i + 1);
    PackTail(s, i);
  }

  lemma PackTail(s: seq<bool>, i: nat)
    requires i < |s|
    ensures Pack(s[i..]) == Cons(s[i], Pack(s[i + 1..]))
  {
    assert s[i..][1..] == s[i + 1..];
  }

  lemma JoinSplit(b: bv8)
    ensures Cons(b & 0x01 != 0, Cons(b & 0x02 != 0, Cons(b & 0x04 != 0, Cons(b & 0x08 != 0,
            Cons(b & 0x10 != 0, Cons(b & 0x20 != 0, Cons(b & 0x40 != 0, Cons(b & 0x80 != 0, 0)))))))) == b as bv32
  {
  }

  lemma FeedByte(c: bv32, b: bv8)
    ensures Feed(c, ByteBits(b)) == Steps(Xor(c, b as bv32), 8)
  {
    FeedIsSteps(c, ByteBits(b));
    PackByte(b);
  }

  // ---------------------------------------------------------------- burst detection

  /** Two bit messages that differ only inside a window of at most 32 bits leave the register different. */
  lemma BurstChangesRegister(c: bv32, pre: seq<bool>, x: seq<bool>, y: seq<bool>, post: seq<bool>)
    requires |x| == |y| <= 32 && x != y
    ensures Feed(c, pre + x + post) != Feed(c, pre + y + post)
  {
    if Feed(c, pre + x + post) == Feed(c, pre + y + post) {
      var d := Feed(c, pre);
      FeedConcat(c, pre + x, post);
      FeedConcat(c, pre + y, post);
      FeedConcat(c, pre, x);
      FeedConcat(c, pre, y);
      FeedInjective(Feed(d, x), Feed(d, y), post);
      FeedIsSteps(d, x);
      FeedIsSteps(d, y);
      StepsInjective(Xor(d, Pack(x)), Xor(d, Pack(y)), |x|);
      XorLeftInjective(Pack(x), Pack(y), d);
      PackInjective(x, y);
    }
  }

  lemma {:induction false} MessageBitsInjective(a: seq<bv8>, b: seq<bv8>)
    requires MessageBits(a) == MessageBits(b)
    ensures a == b
  {
    assert |MessageBits(a)| == 8 * |a| && |MessageBits(b)| == 8 * |b|;
    if a != [] {
      assert MessageBits(a)[..8] == ByteBits(a[0]) && MessageBits(b)[..8] == ByteBits(b[0]);
      assert MessageBits(a)[8..] == MessageBits(a[1..]) && MessageBits(b)[8..] == MessageBits(b[1..]);
      ByteBitsInjective(a[0], b[0]);
      MessageBitsInjective(a[1..], b[1..]);
      assert a == [a[0]] + a[1..] && b == [b[0]] + b[1..];
    }
  }

  lemma ByteBitsInjective(a: bv8, b: bv8)
    requires ByteBits(a) == ByteBits(b)
    ensures a == b
  {
    PackByte(a);
    PackByte(b);
    WidenInjective(a, b);
  }

  lemma WidenInjective(a: bv8, b: bv8) requires a as bv32 == b as bv32 ensures a == b {}

  lemma {:induction false} MessageBitsConcat(a: seq<bv8>, b: seq<bv8>)
    ensures MessageBits(a + b) == MessageBits(a) + MessageBits(b)
  {
    if a == [] {
      assert a + b == b;
    } else {
      assert (a + b)[1..] == a[1..] + b;
      MessageBitsConcat(a[1..], b);
    }
  }

  /** Different messages of equal length whose bits differ only inside a window of at most
      32 consecutive bits, anywhere in the message, never share a CRC. */
  lemma BurstDetected(a: seq<bv8>, b: seq<bv8>, at: nat, width: nat)
    requires |a| == |b| && a != b && width <= 32 && at + width <= 8 * |a|
    requires forall k | 0 <= k < 8 * |a| && !(at <= k < at + width) :: MessageBits(a)[k] == MessageBits(b)[k]
    ensures Crc(a) != Crc(b)
  {
    var x, y := MessageBits(a), MessageBits(b);
    SplitWindow(x, y, at, width);
    if x == y { MessageBitsInjective(a, b); }
    BurstChangesRegister(ALL_ONES, x[..at], x[at..at + width], y[at..at + width], x[at + width..]);
    CrcDiffers(a, b);
  }

  lemma SplitWindow(x: seq<bool>, y: seq<bool>, at: nat, width: nat)
    requires |x| == |y| && at + width <= |x|
    requires forall k | 0 <= k < |x| && !(at <= k < at + width) :: x[k] == y[k]
    ensures x == x[..at] + x[at..at + width] + x[at + width..]
    ensures y == x[..at] + y[at..at + width] + x[at + width..]
  {
  }

  lemma CrcDiffers(a: seq<bv8>, b: seq<bv8>)
    requires Feed(ALL_ONES, MessageBits(a)) != Feed(ALL_ONES, MessageBits(b))
    ensures Crc(a) != Crc(b)
  {
    if Crc(a) == Crc(b) {
      XorRightInjective(Feed(ALL_ONES, MessageBits(a)), Feed(ALL_ONES, MessageBits(b)), ALL_ONES);
    }
  }

  /** The byte form used by the settings store: replacing up to four consecutive bytes is always seen. */
  lemma ByteWindowDetected(pre: seq<bv8>, x: seq<bv8>, y: seq<bv8>, post: seq<bv8>)
    requires |x| == |y| <= 4
    ensures Crc(pre + x + post) == Crc(pre + y + post) <==> x == y
  {
    if x != y {
      MessageBitsConcat(pre + x, post);
      MessageBitsConcat(pre, x);
      MessageBitsConcat(pre + y, post);
      MessageBitsConcat(pre, y);
      if MessageBits(x) == MessageBits(y) { MessageBitsInjective(x, y); }
      BurstChangesRegister(ALL_ONES, MessageBits(pre), MessageBits(x), MessageBits(y), MessageBits(post));
      CrcDiffers(pre + x + post, pre + y + post);
    }
  }

  /** The bound is exact: of the 33-bit bursts, precisely the generator itself goes unseen. */
  lemma BurstOf33(c: bv32, pre: seq<bool>, x: seq<bool>, y: seq<bool>, post: seq<bool>)
    requires |x| == |y| == 33 && x[0] != y[0]
    ensures Feed(c, pre + x + post) == Feed(c, pre + y + post) <==> Xor(Pack(x[1..]), Pack(y[1..])) == POLY
  {
    var d := Feed(c, pre);
    FeedConcat(c, pre + x, post);
    FeedConcat(c, pre + y, post);
    FeedConcat(c, pre, x);
    FeedConcat(c, pre, y);
    if Feed(d, x) != Feed(d, y) && Feed(c, pre + x + post) == Feed(c, pre + y + post) {
      FeedInjective(Feed(d, x), Feed(d, y), post);
    }
    var u, v := Next(d, x[0]), Next(d, y[0]);
    FeedIsSteps(u, x[1..]);
    FeedIsSteps(v, y[1..]);
    if Feed(d, x) == Feed(d, y) { StepsInjective(Xor(u, Pack(x[1..])), Xor(v, Pack(y[1..])), 32); }
    NextFlipped(d, x[0]);
    XorBalance(u, Pack(x[1..]), v, Pack(y[1..]));
  }

  lemma NextFlipped(c: bv32, b: bool) ensures Xor(Next(c, b), Next(c, !b)) == POLY {
    var h := Half(c);
    HalfBit(c, b);
    HalfBit(c, !b);
    XorZero(h);
    XorCancels(POLY, h);
    XorCommutes(POLY, h);
    XorCommutes(Xor(h, POLY), h);
  }

  lemma XorBalance(u: bv32, p: bv32, v: bv32, q: bv32)
    ensures Xor(u, p) == Xor(v, q) <==> Xor(p, q) == Xor(u, v)
  {
    RawBalance(u, p, v, q);
  }
  lemma RawBalance(u: bv32, p: bv32, v: bv32, q: bv32) ensures u ^ p == v ^ q <==> p ^ q == u ^ v {}
}
