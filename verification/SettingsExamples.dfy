/** Concrete checksums: the standard check value, the save that the coded range loses, the torn
    pages refused for every sequence number, and a torn page that the checksum cannot refuse. */
module SettingsExamples {
  import opened Crc32
  import opened Word32
  import opened SettingsLog
  import opened SettingsProtocol
  import opened SettingsRuns
  import opened SettingsSafety

  // ---------------------------------------------------------------- evaluation

  function ByteStep(c: bv32, b: bv8): bv32 {
    BitStep(BitStep(BitStep(BitStep(BitStep(BitStep(BitStep(BitStep(Xor(c, b as bv32)))))))))
  }

  function FeedBytes(c: bv32, data: seq<bv8>): bv32
    decreases data
  {
    if data == [] then c else FeedBytes(ByteStep(c, data[0]), data[1..])
  }

  lemma {:induction false} FeedBytesIsFeed(c: bv32, data: seq<bv8>)
    ensures Feed(c, MessageBits(data)) == FeedBytes(c, data)
    decreases data
  {
    if data != [] {
      FeedConcat(c, ByteBits(data[0]), MessageBits(data[1..]));
      FeedByte(c, data[0]);
      EightSteps(Xor(c, data[0] as bv32));
      FeedBytesIsFeed(ByteStep(c, data[0]), data[1..]);
    }
  }

  lemma EightSteps(c: bv32)
    ensures Steps(c, 8) == BitStep(BitStep(BitStep(BitStep(BitStep(BitStep(BitStep(BitStep(c))))))))
  {
    assert Steps(c, 8) == Steps(BitStep(BitStep(c)), 6);
    assert Steps(c, 8) == Steps(BitStep(BitStep(BitStep(BitStep(c)))), 4);
    assert Steps(c, 8) == Steps(BitStep(BitStep(BitStep(BitStep(BitStep(BitStep(c)))))), 2);
  }

  lemma Eat(data: seq<bv8>, i: nat, c: bv32, d: bv32)
    requires i < |data| && ByteStep(c, data[i]) == d
    ensures FeedBytes(c, data[i..]) == FeedBytes(d, data[i + 1..])
  {
    assert data[i..][0] == data[i] && data[i..][1..] == data[i + 1..];
  }

  // ---------------------------------------------------------------- the range as coded loses a save

  /** A setting whose first four bytes bring the register to zero, where it stays. */
  const LOST: seq<bv8> := [0x22, 0x33, 0x36, 0x1D, 0, 0, 0, 0, 0, 0, 0, 0,
                           0, 0, 0, 0, 0, 0, 0, 0, 0, 0, 0, 0, 0, 0]

  // The register after each byte of that page's checked range, up to the zero.
  lemma Register3(data: seq<bv8>)
    requires |data| >= 16 && data[0] == 0x01 && data[1] == 0x00 && data[2] == 0x01
    ensures FeedBytes(0xFFFF_FFFF, data[0..]) == FeedBytes(0x767B_7C4C, data[3..])
  {
    Eat(data, 0, 0xFFFF_FFFF, 0x5AFA_20E4);
    Eat(data, 1, 0x5AFA_20E4, 0xA73D_DC41);
    Eat(data, 2, 0xA73D_DC41, 0x767B_7C4C);
  }

  lemma Register6(data: seq<bv8>)
    requires |data| >= 16 && data[3] == 0x00 && data[4] == 0x1A && data[5] == 0x00
    ensures FeedBytes(0x767B_7C4C, data[3..]) == FeedBytes(0x8DF0_1047, data[6..])
  {
    Eat(data, 3, 0x767B_7C4C, 0x7F1C_76C7);
    Eat(data, 4, 0x7F1C_76C7, 0xF81D_B21F);
    Eat(data, 5, 0xF81D_B21F, 0x8DF0_1047);
  }

  lemma Register9(data: seq<bv8>)
    requires |data| >= 16 && data[6] == 0x00 && data[7] == 0x00 && data[8] == 0x00
    ensures FeedBytes(0x8DF0_1047, data[6..]) == FeedBytes(0x82AA_7B85, data[9..])
  {
    Eat(data, 6, 0x8DF0_1047, 0xE835_2423);
    Eat(data, 7, 0xE835_2423, 0xA28F_4456);
    Eat(data, 8, 0xA28F_4456, 0x82AA_7B85);
  }

  lemma Register12(data: seq<bv8>)
    requires |data| >= 16 && data[9] == 0x00 && data[10] == 0x00 && data[11] == 0x00
    ensures FeedBytes(0x82AA_7B85, data[9..]) == FeedBytes(0x1D36_3322, data[12..])
  {
    Eat(data, 9, 0x82AA_7B85, 0x9D50_DDD4);
    Eat(data, 10, 0x9D50_DDD4, 0x8123_4610);
    Eat(data, 11, 0x8123_4610, 0x1D36_3322);
  }

  lemma Register14(data: seq<bv8>)
    requires |data| >= 16 && data[12] == 0x22 && data[13] == 0x33
    ensures FeedBytes(0x1D36_3322, data[12..]) == FeedBytes(0x0000_1D36, data[14..])
  {
    Eat(data, 12, 0x1D36_3322, 0x001D_3633);
    Eat(data, 13, 0x001D_3633, 0x0000_1D36);
  }

  lemma Register16(data: seq<bv8>)
    requires |data| >= 16 && data[14] == 0x36 && data[15] == 0x1D
    ensures FeedBytes(0x0000_1D36, data[14..]) == FeedBytes(0x0000_0000, data[16..])
  {
    Eat(data, 14, 0x0000_1D36, 0x0000_001D);
    Eat(data, 15, 0x0000_001D, 0x0000_0000);
  }

  lemma {:induction false} ZeroStays(n: nat)
    ensures FeedBytes(0, seq(n, i => 0)) == 0
  {
    if n > 0 {
      ZeroStays(n - 1);
      assert seq(n, i => 0 as bv8)[1..] == seq(n - 1, i => 0);
      assert ByteStep(0, 0) == 0;
    }
  }

  predicate StartsLost(data: seq<bv8>) {
    |data| == 34 && data[16..] == seq(18, i => 0) &&
    data[0] == 0x01 && data[1] == 0x00 && data[2] == 0x01 && data[3] == 0x00 && data[4] == 0x1A &&
    (forall i | 5 <= i < 12 :: data[i] == 0x00) &&
    data[12] == 0x22 && data[13] == 0x33 && data[14] == 0x36 && data[15] == 0x1D
  }

  lemma LostRegister(body: seq<bv8>)
    requires StartsLost(body)
    ensures FeedBytes(ALL_ONES, body) == 0
  {
    assert body[0..] == body;
    Register3(body);
    Register6(body);
    Register9(body);
    Register12(body);
    Register14(body);
    Register16(body);
    ZeroStays(18);
  }

  lemma LostCrc()
    ensures StagedCrc(AsCoded, 1, LOST) == ALL_ONES
  {
    var h := Header(1, 0);
    FirstHeader(h);
    LostTail(LOST);
    BodyBytes(h, LOST);
    LostRegister(Body(AsCoded, h + LOST));
    FeedBytesIsFeed(ALL_ONES, Body(AsCoded, h + LOST));
    assert Xor(0, ALL_ONES) == ALL_ONES;
  }

  /** The header of a first save, with its crc field still zero. */
  lemma FirstHeader(h: seq<bv8>)
    requires h == Header(1, 0)
    ensures h[4] == 0x01 && h[5] == 0x00 && h[6] == 0x01 && h[7] == 0x00
    ensures h[8] == 0x1A && forall i | 9 <= i < 16 :: h[i] == 0x00
  {
    assert Lo(1) == 1 && Hi(1) == 0;
  }

  lemma BodyBytes(h: seq<bv8>, p: seq<bv8>)
    requires |h| == HEADER_SIZE && |p| == PAYLOAD_SIZE
    requires h[4] == 0x01 && h[5] == 0x00 && h[6] == 0x01 && h[7] == 0x00
    requires h[8] == 0x1A && forall i | 9 <= i < 16 :: h[i] == 0x00
    requires p[0] == 0x22 && p[1] == 0x33 && p[2] == 0x36 && p[3] == 0x1D && p[4..22] == seq(18, i => 0)
    ensures StartsLost(Body(AsCoded, h + p))
  {
    var b := Body(AsCoded, h + p);
    assert forall i | 0 <= i < 12 :: b[i] == h[i + 4];
    assert forall i | 12 <= i < 16 :: b[i] == p[i - 12];
    assert b[16..] == p[4..22];
  }

  lemma LostTail(p: seq<bv8>)
    requires p == LOST
    ensures p[4..22] == seq(18, i => 0)
  {
    assert forall i | 4 <= i < 22 :: p[i] == 0;
  }

  /** On a new chip, with the range as coded: boot, change the settings, save successfully, reboot -
      and the defaults are back. */
  lemma CodedLosesFirstSave()
    ensures var saved := Run(AsCoded, Factory(), [PowerOn, Change(LOST), Store(Completed)]);
            LoadState(AsCoded, saved).store == DEFAULTS != LOST
  {
    var events := [PowerOn, Change(LOST), Store(Completed)];
    assert events[1..] == [Change(LOST), Store(Completed)] && events[1..][1..] == [Store(Completed)];
    BlankRefused(AsCoded);
    LostChecksNot(LoadState(AsCoded, Factory()).(store := LOST));
    CodedNeverRecovers(Factory(), events);
    assert DEFAULTS[0] != LOST[0];
  }

  lemma LostChecksNot(st: State)
    requires WellFormed(st) && st.seqNo == 0 && st.store == LOST
    ensures NothingChecksRun(st, [Store(Completed)])
  {
    assert Succ(0) == 1;
    LostCrc();
    assert [Store(Completed)][1..] == [];
  }

  // ---------------------------------------------------------------- the hypothesis is needed

  lemma BitStepLinear(a: bv32, b: bv32)
    ensures BitStep(Xor(a, b)) == Xor(BitStep(a), BitStep(b))
  {
    var p, q := if Odd(a) then POLY else 0, if Odd(b) then POLY else 0;
    OddXor(a, b);
    HalfXor(a, b);
    XorSelf(POLY);
    XorZero(0);
    XorZero(POLY);
    XorCommutes(0, POLY);
    XorPairs(Half(a), p, Half(b), q);
  }

  lemma XorPairs(x: bv32, p: bv32, y: bv32, q: bv32)
    ensures Xor(Xor(x, p), Xor(y, q)) == Xor(Xor(x, y), Xor(p, q))
  {
    XorAssoc(Xor(x, p), y, q);
    XorSwap(x, p, y);
    XorAssoc(Xor(x, y), p, q);
  }

  lemma {:induction false} StepsLinear(a: bv32, b: bv32, n: nat)
    ensures Steps(Xor(a, b), n) == Xor(Steps(a, n), Steps(b, n))
    decreases n
  {
    if n > 0 {
      BitStepLinear(a, b);
      StepsLinear(BitStep(a), BitStep(b), n - 1);
    }
  }

  function XorByte(x: bv8, y: bv8): bv8 { x ^ y }

  lemma ByteStepLinear(c: bv32, d: bv32, x: bv8, y: bv8)
    ensures ByteStep(Xor(c, d), XorByte(x, y)) == Xor(ByteStep(c, x), ByteStep(d, y))
  {
    EightSteps(Xor(c, x as bv32));
    EightSteps(Xor(d, y as bv32));
    EightSteps(Xor(Xor(c, d), XorByte(x, y) as bv32));
    RawMix(c, d, x, y);
    StepsLinear(Xor(c, x as bv32), Xor(d, y as bv32), 8);
  }

  lemma RawMix(c: bv32, d: bv32, x: bv8, y: bv8)
    ensures Xor(Xor(c, d), XorByte(x, y) as bv32) == Xor(Xor(c, x as bv32), Xor(d, y as bv32))
  {
  }

  /** Five bytes that differ from erased flash by exactly the generator polynomial. */
  const UNLUCKY: seq<bv8> := [0xBE, 0xF9, 0x8E, 0x24, 0xFE]

  const ERASED: seq<bv8> := [0xFF, 0xFF, 0xFF, 0xFF, 0xFF]

  /** The difference of the two, which leaves a zero register at zero. */
  const UNSEEN: seq<bv8> := [0x41, 0x06, 0x71, 0xDB, 0x01]

  lemma UnseenStays(data: seq<bv8>)
    requires data == UNSEEN
    ensures FeedBytes(0, data) == 0
  {
    assert data[0..] == data;
    Eat(data, 0, 0x0000_0000, 0x01DB_7106);
    Eat(data, 1, 0x01DB_7106, 0x0001_DB71);
    Eat(data, 2, 0x0001_DB71, 0x0000_01DB);
    Eat(data, 3, 0x0000_01DB, 0x0000_0001);
    Eat(data, 4, 0x0000_0001, 0x0000_0000);
  }

  function XorBytes(a: seq<bv8>, b: seq<bv8>): seq<bv8>
    requires |a| == |b|
  {
    if a == [] then [] else [XorByte(a[0], b[0])] + XorBytes(a[1..], b[1..])
  }

  /** The checksum register is linear in the message. */
  lemma {:induction false} FeedBytesLinear(c: bv32, d: bv32, a: seq<bv8>, b: seq<bv8>)
    requires |a| == |b|
    ensures FeedBytes(Xor(c, d), XorBytes(a, b)) == Xor(FeedBytes(c, a), FeedBytes(d, b))
    decreases a
  {
    if a != [] {
      ByteStepLinear(c, d, a[0], b[0]);
      assert XorBytes(a, b)[1..] == XorBytes(a[1..], b[1..]);
      FeedBytesLinear(ByteStep(c, a[0]), ByteStep(d, b[0]), a[1..], b[1..]);
    }
  }

  lemma LooksErased(c: bv32, x: seq<bv8>, y: seq<bv8>, z: seq<bv8>)
    requires |y| == |z| && XorBytes(y, z) == x && FeedBytes(0, z) == 0
    ensures Feed(c, MessageBits(x)) == Feed(c, MessageBits(y))
  {
    FeedBytesLinear(c, 0, y, z);
    XorZero(c);
    XorZero(FeedBytes(c, y));
    FeedBytesIsFeed(c, x);
    FeedBytesIsFeed(c, y);
  }

  lemma Differ(a: seq<bv8>, b: seq<bv8>, r: seq<bv8>)
    requires |a| == |b| == |r| == 5 && forall i | 0 <= i < 5 :: r[i] == XorByte(a[i], b[i])
    ensures XorBytes(a, b) == r
  {
    assert XorBytes(a[5..], b[5..]) == [];
    assert XorBytes(a[4..], b[4..]) == [r[4]] + XorBytes(a[4..][1..], b[4..][1..]);
    assert a[3..][1..] == a[4..] && a[2..][1..] == a[3..] && a[1..][1..] == a[2..];
    assert b[3..][1..] == b[4..] && b[2..][1..] == b[3..] && b[1..][1..] == b[2..];
    assert a[4..][1..] == [] && b[4..][1..] == [];
    assert XorBytes(a[3..], b[3..]) == [r[3]] + XorBytes(a[4..], b[4..]);
    assert XorBytes(a[2..], b[2..]) == [r[2]] + XorBytes(a[3..], b[3..]);
    assert XorBytes(a[1..], b[1..]) == [r[1]] + XorBytes(a[2..], b[2..]);
  }

  /** The checksum cannot tell these five bytes from erased flash: the difference leaves a zero register. */
  predicate LooksBlank(x: seq<bv8>, z: seq<bv8>) {
    |x| == |z| == 5 && x[0] != 0xFF && XorBytes(ERASED, z) == x && FeedBytes(0, z) == 0
  }

  lemma UnluckyLooksBlank(x: seq<bv8>) returns (z: seq<bv8>)
    requires x == UNLUCKY
    ensures LooksBlank(x, z)
  {
    z := UNSEEN;
    UnseenStays(z);
    UnluckyDiffers(x, z, ERASED);
  }

  lemma UnluckyDiffers(x: seq<bv8>, z: seq<bv8>, e: seq<bv8>)
    requires x == UNLUCKY && z == UNSEEN && e == ERASED
    ensures XorBytes(e, z) == x
  {
    Differ(e, z, x);
  }

  /** The no-collision hypothesis cannot be dropped: whatever its first 20 bytes, this payload's page, stopped
      three half-words early, checks although its last bytes are missing - for every sequence number. */
  lemma TornCollision(seqNo: bv16, head: seq<bv8>)
    requires |head| == 20
    ensures |UNLUCKY| == 5
    ensures var payload := head + UNLUCKY + [0xFF];
            var blob := Blob(AsDocumented, seqNo, payload);
            HeaderValid(AsDocumented, Torn(blob, 18)) && Payload(Torn(blob, 18)) != payload
  {
    var x := UNLUCKY;
    var z := UnluckyLooksBlank(x);
    TornChecks(seqNo, head, x, z);
  }

  lemma TornChecks(seqNo: bv16, head: seq<bv8>, x: seq<bv8>, z: seq<bv8>)
    requires |head| == 20 && LooksBlank(x, z)
    ensures var payload := head + x + [0xFF];
            var page := Torn(Blob(AsDocumented, seqNo, payload), 18);
            HeaderValid(AsDocumented, page) && Payload(page) != payload
  {
    var payload := head + x + [0xFF];
    var blob := Blob(AsDocumented, seqNo, payload);
    var p, w := Torn(blob, 18), Whole(blob);
    DocumentedAccepted(seqNo, payload);
    TornShort(blob);
    assert blob[36..42] == x + [0xFF];
    SameCheck(p, w, x, ERASED, z);
    TailLost(p, head, x);
  }

  lemma TailLost(p: seq<bv8>, head: seq<bv8>, x: seq<bv8>)
    requires |p| == PAGE_SIZE && p[36..42] == ERASED + [0xFF]
    requires |head| == 20 && |x| == 5 && x[0] != 0xFF
    ensures Payload(p) != head + x + [0xFF]
  {
    assert Payload(p)[20] == p[36] == p[36..42][0] == 0xFF && (head + x + [0xFF])[20] == x[0];
  }

  /** Two pages that differ only in five bytes which leave the register alike check alike. */
  lemma SameCheck(p: seq<bv8>, w: seq<bv8>, x: seq<bv8>, y: seq<bv8>, z: seq<bv8>)
    requires |p| == |w| == PAGE_SIZE && p[..36] == w[..36] && p[36..42] == y + [0xFF] && w[36..42] == x + [0xFF]
    requires |y| == |z| && XorBytes(y, z) == x && FeedBytes(0, z) == 0
    ensures HeaderValid(AsDocumented, p) <==> HeaderValid(AsDocumented, w)
  {
    var pre := w[4..12] + w[16..36];
    BodySplit(w, x);
    BodySplit(p, y);
    assert p[4..12] == p[..36][4..12] && p[16..36] == p[..36][16..36];
    assert w[4..12] == w[..36][4..12] && w[16..36] == w[..36][16..36];
    SameCrc(pre, x, y, z, [0xFF]);
    SameHeader(p, w);
  }

  lemma TornShort(blob: seq<bv8>)
    requires |blob| == BLOB_SIZE
    ensures Torn(blob, 18)[..36] == blob[..36] && Torn(blob, 18)[36..42] == ERASED + [0xFF]
    ensures Whole(blob)[..36] == blob[..36] && Whole(blob)[36..42] == blob[36..42]
  {
  }

  lemma BodySplit(p: seq<bv8>, x: seq<bv8>)
    requires |p| == PAGE_SIZE && p[36..42] == x + [0xFF]
    ensures Body(AsDocumented, p) == (p[4..12] + p[16..36]) + x + [0xFF]
  {
    assert p[16..42] == p[16..36] + p[36..42];
  }

  lemma SameCrc(pre: seq<bv8>, x: seq<bv8>, y: seq<bv8>, z: seq<bv8>, post: seq<bv8>)
    requires |y| == |z| && XorBytes(y, z) == x && FeedBytes(0, z) == 0
    ensures Crc(pre + x + post) == Crc(pre + y + post)
  {
    LooksErased(Feed(ALL_ONES, MessageBits(pre)), x, y, z);
    FeedMessage(pre, x, post);
    FeedMessage(pre, y, post);
  }

  lemma FeedMessage(pre: seq<bv8>, x: seq<bv8>, post: seq<bv8>)
    ensures Feed(ALL_ONES, MessageBits(pre + x + post)) ==
            Feed(Feed(Feed(ALL_ONES, MessageBits(pre)), MessageBits(x)), MessageBits(post))
  {
    MessageBitsConcat(pre + x, post);
    MessageBitsConcat(pre, x);
    FeedConcat(ALL_ONES, MessageBits(pre) + MessageBits(x), MessageBits(post));
    FeedConcat(ALL_ONES, MessageBits(pre), MessageBits(x));
  }

  lemma SameHeader(p: seq<bv8>, w: seq<bv8>)
    requires |p| == |w| == PAGE_SIZE && p[..36] == w[..36]
    ensures Magic(p) == Magic(w) && Version(p) == Version(w) && Size(p) == Size(w) && StoredCrc(p) == StoredCrc(w)
  {
    assert forall i | 0 <= i < 16 :: p[i] == p[..36][i] && w[i] == w[..36][i];
  }
}
