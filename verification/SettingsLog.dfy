/** The A/B settings log of firmware/src/services/settings.cpp as a state machine over boots,
    edits and saves, where a save may be stopped after any half-word, and its crash safety. */
module SettingsLog {
  import opened Crc32
  import opened Word32
  import F = Flash

  const MAGIC: bv32 := 0x53434647
  const VERSION: bv16 := 1
  const HEADER_SIZE: nat := 16
  const PAYLOAD_SIZE: nat := 26
  const BLOB_SIZE: nat := 42
  const SIZE_FIELD: bv16 := 26
  const HALF_WORDS: nat := 21
  const PAGE_SIZE: nat := F.PAGE_SIZE

  // ---------------------------------------------------------------- pages

  /** Which bytes the checksum covers: the range the code computes, or the one its comments give
      (everything except the crc field). */
  datatype CrcRange = AsCoded | AsDocumented

  function Body(range: CrcRange, blob: seq<bv8>): seq<bv8>
    requires |blob| >= BLOB_SIZE
  {
    match range
    case AsCoded => blob[4..12 + PAYLOAD_SIZE]
    case AsDocumented => blob[4..12] + blob[HEADER_SIZE..BLOB_SIZE]
  }

  function Magic(p: seq<bv8>): bv32 requires |p| >= BLOB_SIZE { WordAt(p, 0) }
  function Version(p: seq<bv8>): bv16 requires |p| >= BLOB_SIZE { HalfAt(p, 4) }
  function SeqNo(p: seq<bv8>): bv16 requires |p| >= BLOB_SIZE { HalfAt(p, 6) }
  function Size(p: seq<bv8>): bv16 requires |p| >= BLOB_SIZE { HalfAt(p, 8) }
  function StoredCrc(p: seq<bv8>): bv32 requires |p| >= BLOB_SIZE { WordAt(p, 12) }
  function Payload(p: seq<bv8>): seq<bv8> requires |p| >= BLOB_SIZE { p[HEADER_SIZE..BLOB_SIZE] }

  /** header_valid. */
  predicate HeaderValid(range: CrcRange, p: seq<bv8>)
    requires |p| >= BLOB_SIZE
  {
    Magic(p) == MAGIC && Version(p) == VERSION && Size(p) == SIZE_FIELD &&
    Crc(Body(range, p)) == StoredCrc(p)
  }

  function Header(seqNo: bv16, crc: bv32): (h: seq<bv8>)
    ensures |h| == HEADER_SIZE
  {
    [0x47, 0x46, 0x43, 0x53, 0x01, 0x00, Lo(seqNo), Hi(seqNo), 0x1A, 0x00, 0x00, 0x00,
     Byte(crc, 0), Byte(crc, 1), Byte(crc, 2), Byte(crc, 3)]
  }

  /** The checksum save() computes: over the staged blob, whose crc field is still zero. */
  function StagedCrc(range: CrcRange, seqNo: bv16, payload: seq<bv8>): bv32
    requires |payload| == PAYLOAD_SIZE
  {
    Crc(Body(range, Header(seqNo, 0) + payload))
  }

  /** The blob save() programs. */
  function Blob(range: CrcRange, seqNo: bv16, payload: seq<bv8>): (b: seq<bv8>)
    requires |payload| == PAYLOAD_SIZE
    ensures |b| == BLOB_SIZE
  {
    Header(seqNo, StagedCrc(range, seqNo, payload)) + payload
  }

  function Blank(n: nat): (s: seq<bv8>) ensures |s| == n { seq(n, i => 0xFF) }

  /** An erased page with the first k half-words of the blob programmed. */
  function Torn(blob: seq<bv8>, k: nat): (p: seq<bv8>)
    requires |blob| == BLOB_SIZE
    ensures |p| == PAGE_SIZE
  {
    var n := if 2 * k < BLOB_SIZE then 2 * k else BLOB_SIZE;
    blob[..n] + Blank(PAGE_SIZE - n)
  }

  function Whole(blob: seq<bv8>): (p: seq<bv8>)
    requires |blob| == BLOB_SIZE
    ensures |p| == PAGE_SIZE
  {
    Torn(blob, HALF_WORDS)
  }

  // ---------------------------------------------------------------- what a whole page says

  predicate HasFields(p: seq<bv8>, seqNo: bv16, crc: bv32, payload: seq<bv8>)
    requires |p| >= BLOB_SIZE
  {
    Magic(p) == MAGIC && Version(p) == VERSION && Size(p) == SIZE_FIELD &&
    SeqNo(p) == seqNo && StoredCrc(p) == crc && Payload(p) == payload
  }

  lemma Fields(range: CrcRange, seqNo: bv16, payload: seq<bv8>)
    requires |payload| == PAYLOAD_SIZE
    ensures HasFields(Whole(Blob(range, seqNo, payload)), seqNo, StagedCrc(range, seqNo, payload), payload)
  {
    WholePrefix(Blob(range, seqNo, payload));
    HeaderFields(Whole(Blob(range, seqNo, payload)), seqNo, StagedCrc(range, seqNo, payload), payload);
  }

  lemma WholePrefix(blob: seq<bv8>)
    requires |blob| == BLOB_SIZE
    ensures Whole(blob)[..BLOB_SIZE] == blob
  {
  }

  lemma HeaderFields(p: seq<bv8>, seqNo: bv16, crc: bv32, payload: seq<bv8>)
    requires |payload| == PAYLOAD_SIZE && |p| >= BLOB_SIZE
    requires p[..BLOB_SIZE] == Header(seqNo, crc) + payload
    ensures HasFields(p, seqNo, crc, payload)
  {
    var q := p[..BLOB_SIZE];
    assert q[0] == 0x47 && q[1] == 0x46 && q[2] == 0x43 && q[3] == 0x53 && q[4] == 0x01 && q[5] == 0x00;
    assert q[6] == Lo(seqNo) && q[7] == Hi(seqNo) && q[8] == 0x1A && q[9] == 0x00;
    assert q[12] == Byte(crc, 0) && q[13] == Byte(crc, 1) && q[14] == Byte(crc, 2) && q[15] == Byte(crc, 3);
    assert Payload(p) == q[HEADER_SIZE..] == payload;
    Constants();
    JoinHalves(seqNo);
    JoinBytes(crc);
  }

  lemma Constants()
    ensures Join4(0x47, 0x46, 0x43, 0x53) == MAGIC
    ensures Join2(0x01, 0x00) == VERSION
    ensures Join2(0x1A, 0x00) == SIZE_FIELD
  {
  }

  /** With the documented range every page that save() completes is accepted. */
  lemma DocumentedAccepted(seqNo: bv16, payload: seq<bv8>)
    requires |payload| == PAYLOAD_SIZE
    ensures HeaderValid(AsDocumented, Whole(Blob(AsDocumented, seqNo, payload)))
  {
    Fields(AsDocumented, seqNo, payload);
    assert Body(AsDocumented, Whole(Blob(AsDocumented, seqNo, payload)))
        == Body(AsDocumented, Header(seqNo, 0) + payload);
  }

  /** With the range as coded, a completed page is accepted exactly when its checksum word is zero:
      the checked bytes include the crc field, which was zero when the checksum was taken. */
  lemma CodedAcceptedIff(seqNo: bv16, payload: seq<bv8>)
    requires |payload| == PAYLOAD_SIZE
    ensures HeaderValid(AsCoded, Whole(Blob(AsCoded, seqNo, payload))) <==> StagedCrc(AsCoded, seqNo, payload) == 0
  {
    var crc := StagedCrc(AsCoded, seqNo, payload);
    var blob := Blob(AsCoded, seqNo, payload);
    Fields(AsCoded, seqNo, payload);
    WholePrefix(blob);
    assert Body(AsCoded, Whole(blob)) == Body(AsCoded, Whole(blob)[..BLOB_SIZE]);
    CodedBody(seqNo, 0, payload);
    CodedBody(seqNo, crc, payload);
    ByteWindowDetected(Header(seqNo, 0)[4..12], WordBytes(0), WordBytes(crc), payload[..22]);
    JoinBytes(crc);
    JoinBytes(0);
  }

  /** The bytes the code checks: version to reserved, the crc field, and all but four bytes of the payload. */
  lemma CodedBody(seqNo: bv16, crc: bv32, payload: seq<bv8>)
    requires |payload| == PAYLOAD_SIZE
    ensures Body(AsCoded, Header(seqNo, crc) + payload) == Header(seqNo, 0)[4..12] + WordBytes(crc) + payload[..22]
  {
  }

  /** The bytes "GFCS" of the magic, version 1 and size 26. */
  predicate StartsRight(p: seq<bv8>)
    requires |p| >= BLOB_SIZE
  {
    p[0] == 0x47 && p[1] == 0x46 && p[2] == 0x43 && p[3] == 0x53 && p[4] == 1 && p[5] == 0 && p[8] == 26 && p[9] == 0
  }

  /** A page whose magic, version or size bytes differ is refused, whatever its checksum. */
  lemma WrongFieldRefused(range: CrcRange, p: seq<bv8>)
    requires |p| >= BLOB_SIZE && !StartsRight(p)
    ensures !HeaderValid(range, p)
  {
    if HeaderValid(range, p) { ValidStartsRight(range, p); }
  }

  lemma ValidStartsRight(range: CrcRange, p: seq<bv8>)
    requires |p| >= BLOB_SIZE && HeaderValid(range, p)
    ensures StartsRight(p)
  {
    BytesOfJoin(p[0], p[1], p[2], p[3]);
    HalvesOfJoin(p[4], p[5]);
    HalvesOfJoin(p[8], p[9]);
    FieldBytes();
  }

  lemma FieldBytes()
    ensures Byte(MAGIC, 0) == 0x47 && Byte(MAGIC, 1) == 0x46 && Byte(MAGIC, 2) == 0x43 && Byte(MAGIC, 3) == 0x53
    ensures Lo(VERSION) == 1 && Hi(VERSION) == 0 && Lo(SIZE_FIELD) == 26 && Hi(SIZE_FIELD) == 0
  {
  }

  // ---------------------------------------------------------------- torn pages

  /** A save stopped before its size field leaves a page the header checks refuse. */
  lemma TornHeadRejected(range: CrcRange, seqNo: bv16, payload: seq<bv8>, k: nat)
    requires |payload| == PAYLOAD_SIZE && k <= 4
    ensures !HeaderValid(range, Torn(Blob(range, seqNo, payload), k))
  {
    var p := Torn(Blob(range, seqNo, payload), k);
    assert p[8] == 0xFF;
    HalvesOfJoin(p[8], p[9]);
    assert Lo(SIZE_FIELD) == 0x1A;
  }

  /** A page that misses only the last one or two half-words is refused unless those were 0xFF anyway. */
  lemma TornTailRejected(seqNo: bv16, payload: seq<bv8>, k: nat)
    requires |payload| == PAYLOAD_SIZE && k >= 19
    ensures var blob := Blob(AsDocumented, seqNo, payload);
            HeaderValid(AsDocumented, Torn(blob, k)) <==> Torn(blob, k) == Whole(blob)
  {
    var blob := Blob(AsDocumented, seqNo, payload);
    var p, w := Torn(blob, k), Whole(blob);
    DocumentedAccepted(seqNo, payload);
    assert p[..38] == w[..38] && p[42..] == w[42..];
    if HeaderValid(AsDocumented, p) { SameTail(p, w); }
  }

  lemma SameTail(p: seq<bv8>, w: seq<bv8>)
    requires |p| == |w| == PAGE_SIZE && p[..38] == w[..38] && p[42..] == w[42..]
    requires HeaderValid(AsDocumented, p) && HeaderValid(AsDocumented, w)
    ensures p == w
  {
    BodyTail(p);
    BodyTail(w);
    assert p[..38][4..12] == p[4..12] && p[..38][16..38] == p[16..38];
    assert w[..38][4..12] == w[4..12] && w[..38][16..38] == w[16..38];
    StoredCrcPrefix(p, w);
    ByteWindowDetected(w[4..12] + w[16..38], p[38..42], w[38..42], []);
    assert p == p[..38] + p[38..42] + p[42..];
    assert w == w[..38] + w[38..42] + w[42..];
  }

  lemma StoredCrcPrefix(p: seq<bv8>, w: seq<bv8>)
    requires |p| == |w| == PAGE_SIZE && p[..38] == w[..38]
    ensures StoredCrc(p) == StoredCrc(w)
  {
    assert forall i | 12 <= i < 16 :: p[i] == p[..38][i] && w[i] == w[..38][i];
  }

  lemma BodyTail(p: seq<bv8>)
    requires |p| == PAGE_SIZE
    ensures Body(AsDocumented, p) == (p[4..12] + p[16..38]) + p[38..42] + []
  {
  }
}
